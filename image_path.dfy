/**
 * The image naming convention `images/<prefix>-<index>.jpg` and the two
 * regular expressions the gallery script reads it with:
 *
 *   getCarPrefix:       /images\/(.+)-\d+\.jpg/   (capture group 1)
 *   the index parse:    /-(\d+)\.jpg/             (capture group 1, then parseInt)
 *
 * Both are unanchored, so the match found is the one that starts leftmost;
 * `.+` is greedy, so the prefix is the longest capture that still leaves a
 * `-digits.jpg` right behind it; and `.` does not match a line terminator.
 * Matching is described by positions in the searched string.
 */
module ImagePath {
  import opened Wrappers
  import opened Strings

  const ImagesDir: string := "images/"
  const Jpg: string := ".jpg"

  /** The characters JavaScript's `.` refuses to match. */
  predicate IsLineTerminator(c: char) {
    c == '\n' || c == '\r' || c == '\U{2028}' || c == '\U{2029}'
  }

  predicate NoLineTerminator(t: string) {
    forall k :: 0 <= k < |t| ==> !IsLineTerminator(t[k])
  }

  // ----- `-(\d+)\.jpg` -----

  /** `-(\d+)\.jpg` matches at position `q` of `s` with a capture of `k` digits. */
  ghost predicate IndexTokenMatch(s: string, q: nat, k: nat) {
    1 <= k && q + 1 + k <= |s| && s[q] == '-'
    && (forall m :: q + 1 <= m < q + 1 + k ==> IsDigit(s[m]))
    && OccursAt(s, Jpg, q + 1 + k)
  }

  /** The end of the run of digits that starts at position `i`. */
  function DigitsEnd(s: string, i: nat): nat
    requires i <= |s|
    decreases |s| - i
  {
    if i < |s| && IsDigit(s[i]) then DigitsEnd(s, i + 1) else i
  }

  /** `DigitsEnd` stops at the first non-digit at or after `i`. */
  lemma {:induction false} DigitsEndSpec(s: string, i: nat)
    requires i <= |s|
    ensures var j := DigitsEnd(s, i);
            && i <= j <= |s|
            && (forall m :: i <= m < j ==> IsDigit(s[m]))
            && (j < |s| ==> !IsDigit(s[j]))
    decreases |s| - i
  {
    if i < |s| && IsDigit(s[i]) {
      DigitsEndSpec(s, i + 1);
    }
  }

  /** A run of digits that stops at a non-digit ends there. */
  lemma {:induction false} DigitsEndExact(s: string, i: nat, j: nat)
    requires i <= j < |s|
    requires forall m :: i <= m < j ==> IsDigit(s[m])
    requires !IsDigit(s[j])
    ensures DigitsEnd(s, i) == j
    decreases j - i
  {
    if i < j {
      DigitsEndExact(s, i + 1, j);
    }
  }

  /** The capture of `-(\d+)\.jpg` tried at position `q` of `s`. */
  function TokenAt(s: string, q: nat): (r: Option<string>)
    requires q <= |s|
    ensures r.Some? ==> AllDigits(r.value)
  {
    if q < |s| && s[q] == '-' then
      var j := DigitsEnd(s, q + 1);
      DigitsEndSpec(s, q + 1);
      if q + 1 < j && OccursAt(s, Jpg, j) then Some(s[q + 1..j]) else None
    else
      None
  }

  /** What `TokenAt` finds is a match of `-(\d+)\.jpg`, and its capture. */
  lemma TokenAtSound(s: string, q: nat)
    requires q <= |s| && TokenAt(s, q).Some?
    ensures IndexTokenMatch(s, q, |TokenAt(s, q).value|)
    ensures TokenAt(s, q).value == s[q + 1..q + 1 + |TokenAt(s, q).value|]
  {
    DigitsEndSpec(s, q + 1);
  }

  /**
   * Every way `-(\d+)\.jpg` can match at `q` is found, and there is only one:
   * since a digit is never a `.`, backtracking inside `\d+` cannot succeed,
   * so the capture is the whole digit run.
   */
  lemma TokenAtComplete(s: string, q: nat, k: nat)
    requires IndexTokenMatch(s, q, k)
    ensures TokenAt(s, q) == Some(s[q + 1..q + 1 + k])
  {
    assert s[q + 1 + k] == Jpg[0];
    DigitsEndExact(s, q + 1, q + 1 + k);
    DigitsEndSpec(s, q + 1);
  }

  /** The leftmost match of `-(\d+)\.jpg` starting at position `q` or later. */
  function FindIndexTokenFrom(s: string, q: nat): (r: Option<string>)
    requires q <= |s|
    ensures r.Some? ==> AllDigits(r.value)
    decreases |s| - q
  {
    if TokenAt(s, q).Some? || q == |s| then TokenAt(s, q) else FindIndexTokenFrom(s, q + 1)
  }

  /** `s.match(/-(\d+)\.jpg/)`: the capture of the leftmost match, or no match. */
  function FindIndexToken(s: string): (r: Option<string>)
    ensures r.Some? ==> AllDigits(r.value)
  {
    FindIndexTokenFrom(s, 0)
  }

  /** The search returns the first match at or after `from`. */
  lemma {:induction false} FindIndexTokenFromFirst(s: string, from: nat, q: nat)
    requires from <= q <= |s| && TokenAt(s, q).Some?
    requires forall q' :: from <= q' < q ==> TokenAt(s, q').None?
    ensures FindIndexTokenFrom(s, from) == TokenAt(s, q)
    decreases q - from
  {
    if from < q {
      FindIndexTokenFromFirst(s, from + 1, q);
    }
  }

  /** The search fails only when no position from `from` on has a match. */
  lemma {:induction false} FindIndexTokenFromNone(s: string, from: nat)
    requires from <= |s|
    ensures FindIndexTokenFrom(s, from).None? <==> forall q :: from <= q <= |s| ==> TokenAt(s, q).None?
    decreases |s| - from
  {
    if from < |s| && TokenAt(s, from).None? {
      FindIndexTokenFromNone(s, from + 1);
    }
  }

  /** A successful search returns the match found at some position. */
  lemma {:induction false} FindIndexTokenFromSome(s: string, from: nat)
    requires from <= |s| && FindIndexTokenFrom(s, from).Some?
    ensures exists q :: from <= q <= |s| && FindIndexTokenFrom(s, from) == TokenAt(s, q)
                        && forall q' :: from <= q' < q ==> TokenAt(s, q').None?
    decreases |s| - from
  {
    if TokenAt(s, from).None? {
      FindIndexTokenFromSome(s, from + 1);
    }
  }

  /**
   * `FindIndexToken` fails exactly when no position has a match, and
   * otherwise returns the match that starts leftmost.
   */
  lemma FindIndexTokenIsLeftmost(s: string)
    ensures FindIndexToken(s).None? <==> forall q :: 0 <= q <= |s| ==> TokenAt(s, q).None?
    ensures FindIndexToken(s).Some? ==>
              exists q :: 0 <= q <= |s| && FindIndexToken(s) == TokenAt(s, q)
                          && forall q' :: 0 <= q' < q ==> TokenAt(s, q').None?
  {
    FindIndexTokenFromNone(s, 0);
    if FindIndexToken(s).Some? {
      FindIndexTokenFromSome(s, 0);
    }
  }

  /** The index parse of the script: the leftmost `-digits.jpg` read as a number, else 1. */
  function IndexOf(src: string): nat {
    match FindIndexToken(src)
    case Some(digits) => ParseDecimal(digits)
    case None => 1
  }

  // ----- `images\/(.+)-\d+\.jpg` -----

  /**
   * `images\/(.+)-\d+\.jpg` matches at position `p` of `s` with a capture of
   * `e` characters.
   */
  ghost predicate PrefixMatch(s: string, p: nat, e: nat) {
    OccursAt(s, ImagesDir, p) && 1 <= e && p + |ImagesDir| + e <= |s|
    && (forall m :: p + |ImagesDir| <= m < p + |ImagesDir| + e ==> !IsLineTerminator(s[m]))
    && TokenAt(s, p + |ImagesDir| + e).Some?
  }

  /** The end of the longest run from position `i` that `.+` can consume. */
  function DotRunEnd(s: string, i: nat): nat
    requires i <= |s|
    decreases |s| - i
  {
    if i < |s| && !IsLineTerminator(s[i]) then DotRunEnd(s, i + 1) else i
  }

  /** `DotRunEnd` stops at the first line terminator at or after `i`. */
  lemma {:induction false} DotRunEndSpec(s: string, i: nat)
    requires i <= |s|
    ensures var j := DotRunEnd(s, i);
            && i <= j <= |s|
            && (forall m :: i <= m < j ==> !IsLineTerminator(s[m]))
            && (j < |s| ==> IsLineTerminator(s[j]))
    decreases |s| - i
  {
    if i < |s| && !IsLineTerminator(s[i]) {
      DotRunEndSpec(s, i + 1);
    }
  }

  /**
   * Backtracking of the greedy `.+` that started at `start`: the largest end
   * in `start + 1 .. end` with a `-\d+\.jpg` right behind it.
   */
  function GreedyCaptureEnd(s: string, start: nat, end: nat): Option<nat>
    requires start <= end <= |s|
    decreases end - start
  {
    if end == start then None
    else if TokenAt(s, end).Some? then Some(end)
    else GreedyCaptureEnd(s, start, end - 1)
  }

  /** `GreedyCaptureEnd` returns the largest end that has a match behind it. */
  lemma {:induction false} GreedyCaptureEndSpec(s: string, start: nat, end: nat)
    requires start <= end <= |s|
    ensures var r := GreedyCaptureEnd(s, start, end);
            && (r.Some? ==> start < r.value <= end && TokenAt(s, r.value).Some?)
            && (forall j :: (if r.Some? then r.value else start) < j <= end ==> TokenAt(s, j).None?)
    decreases end - start
  {
    if end > start && TokenAt(s, end).None? {
      GreedyCaptureEndSpec(s, start, end - 1);
    }
  }

  /** The capture of `images\/(.+)-\d+\.jpg` tried at position `p` of `s`. */
  function PrefixAt(s: string, p: nat): (r: Option<string>)
    requires p <= |s|
    ensures r.Some? ==> r.value != []
  {
    if OccursAt(s, ImagesDir, p) then
      var start := p + |ImagesDir|;
      DotRunEndSpec(s, start);
      GreedyCaptureEndSpec(s, start, DotRunEnd(s, start));
      match GreedyCaptureEnd(s, start, DotRunEnd(s, start))
      case Some(end) => Some(s[start..end])
      case None => None
    else
      None
  }

  /**
   * `PrefixAt` is the greedy capture: it succeeds exactly when some capture
   * is possible, and then returns the longest one.
   */
  lemma PrefixAtIsGreedy(s: string, p: nat)
    requires p <= |s|
    ensures PrefixAt(s, p).Some? <==> exists e: nat :: PrefixMatch(s, p, e)
    ensures PrefixAt(s, p).Some? ==>
              var c := PrefixAt(s, p).value;
              PrefixMatch(s, p, |c|) && c == s[p + |ImagesDir|..p + |ImagesDir| + |c|]
              && forall e: nat :: PrefixMatch(s, p, e) ==> e <= |c|
  {
    if OccursAt(s, ImagesDir, p) {
      var start := p + |ImagesDir|;
      var run := DotRunEnd(s, start);
      DotRunEndSpec(s, start);
      forall e: nat | PrefixMatch(s, p, e) ensures start + e <= run {
      }
      var g := GreedyCaptureEnd(s, start, run);
      GreedyCaptureEndSpec(s, start, run);
      if g.Some? {
        assert PrefixMatch(s, p, g.value - start);
      }
    }
  }

  /** The leftmost match of `images\/(.+)-\d+\.jpg` starting at position `p` or later. */
  function GetCarPrefixFrom(s: string, p: nat): (r: Option<string>)
    requires p <= |s|
    ensures r.Some? ==> r.value != []
    decreases |s| - p
  {
    if PrefixAt(s, p).Some? || p == |s| then PrefixAt(s, p) else GetCarPrefixFrom(s, p + 1)
  }

  /** `getCarPrefix`: the capture of the leftmost match of `images\/(.+)-\d+\.jpg`, or null. */
  function GetCarPrefix(src: string): (r: Option<string>)
    ensures r.Some? ==> r.value != []
  {
    GetCarPrefixFrom(src, 0)
  }

  /** A successful search returns the match found at some position. */
  lemma {:induction false} GetCarPrefixFromSome(s: string, from: nat)
    requires from <= |s| && GetCarPrefixFrom(s, from).Some?
    ensures exists p :: from <= p <= |s| && GetCarPrefixFrom(s, from) == PrefixAt(s, p)
                        && forall p' :: from <= p' < p ==> PrefixAt(s, p').None?
    decreases |s| - from
  {
    if PrefixAt(s, from).None? {
      GetCarPrefixFromSome(s, from + 1);
      var p :| from + 1 <= p <= |s| && GetCarPrefixFrom(s, from + 1) == PrefixAt(s, p)
               && forall p' :: from + 1 <= p' < p ==> PrefixAt(s, p').None?;
      assert from <= p <= |s| && GetCarPrefixFrom(s, from) == PrefixAt(s, p)
             && forall p' :: from <= p' < p ==> PrefixAt(s, p').None?;
    } else {
      assert GetCarPrefixFrom(s, from) == PrefixAt(s, from);
    }
  }

  /** The search fails only when no position from `from` on has a match. */
  lemma {:induction false} GetCarPrefixFromNone(s: string, from: nat)
    requires from <= |s|
    ensures GetCarPrefixFrom(s, from).None? <==> forall p :: from <= p <= |s| ==> PrefixAt(s, p).None?
    decreases |s| - from
  {
    if from < |s| && PrefixAt(s, from).None? {
      GetCarPrefixFromNone(s, from + 1);
    }
  }

  /**
   * `GetCarPrefix` fails exactly when the pattern matches nowhere, and
   * otherwise returns the match that starts leftmost.
   */
  lemma GetCarPrefixIsLeftmost(src: string)
    ensures GetCarPrefix(src).None? <==> forall p :: 0 <= p <= |src| ==> PrefixAt(src, p).None?
    ensures GetCarPrefix(src).Some? ==>
              exists p :: 0 <= p <= |src| && GetCarPrefix(src) == PrefixAt(src, p)
                          && forall p' :: 0 <= p' < p ==> PrefixAt(src, p').None?
  {
    GetCarPrefixFromNone(src, 0);
    if GetCarPrefix(src).Some? {
      GetCarPrefixFromSome(src, 0);
    }
  }

  // ----- the template `images/${carPrefix}-${currentImageIndex}.jpg` -----

  /** The part of a built name after the prefix: `-${currentImageIndex}.jpg`. */
  function IndexSuffix(index: nat): string {
    "-" + Decimal(index) + Jpg
  }

  /** The file name a thumbnail is matched against: `${carPrefix}-${currentImageIndex}.jpg`. */
  function ThumbName(prefix: string, index: nat): string {
    prefix + IndexSuffix(index)
  }

  /** The image path the script builds: `images/${carPrefix}-${currentImageIndex}.jpg`. */
  function ImageSrc(prefix: string, index: nat): string {
    ImagesDir + ThumbName(prefix, index)
  }

  // ----- what the script relies on -----

  /**
   * The fallback `: 1` of the initial index parse is never taken: a string
   * from which a car prefix parses always holds a `-digits.jpg`.
   */
  lemma PrefixImpliesIndexToken(src: string)
    requires GetCarPrefix(src).Some?
    ensures FindIndexToken(src).Some?
  {
    FindIndexTokenFromNone(src, 0);
    PrefixSearchFindsIndexToken(src, 0);
  }

  /** A capture found by the prefix search from `from` has a `-digits.jpg` behind it. */
  lemma {:induction false} PrefixSearchFindsIndexToken(s: string, from: nat)
    requires from <= |s| && GetCarPrefixFrom(s, from).Some?
    ensures exists q :: 0 <= q <= |s| && TokenAt(s, q).Some?
    decreases |s| - from
  {
    if PrefixAt(s, from).Some? {
      PrefixAtIsGreedy(s, from);
      var c := PrefixAt(s, from).value;
      assert TokenAt(s, from + |ImagesDir| + |c|).Some?;
    } else {
      PrefixSearchFindsIndexToken(s, from + 1);
    }
  }

  /** `-<index>.jpg` holds a `-` only at its start, then the digits, then `.jpg`. */
  lemma IndexSuffixShape(index: nat)
    ensures var suf := IndexSuffix(index);
            var d := Decimal(index);
            && |suf| == 1 + |d| + |Jpg|
            && suf[0] == '-'
            && suf[1..1 + |d|] == d
            && OccursAt(suf, Jpg, 1 + |d|)
            && forall m :: 0 < m < |suf| ==> suf[m] != '-'
  {
    var suf := IndexSuffix(index);
    var d := Decimal(index);
    assert suf[1 + |d|..1 + |d| + |Jpg|] == Jpg;
    forall m | 0 < m < |suf| ensures suf[m] != '-' {
      if m <= |d| {
        assert suf[m] == d[m - 1];
      } else {
        assert suf[m] == Jpg[m - 1 - |d|];
      }
    }
  }

  /** A built path is `images/`, then the prefix, then `-<index>.jpg`. */
  lemma ImageSrcParts(prefix: string, index: nat)
    ensures var src := ImageSrc(prefix, index);
            var at := |ImagesDir| + |prefix|;
            && |src| == at + |IndexSuffix(index)|
            && OccursAt(src, ImagesDir, 0)
            && src[|ImagesDir|..at] == prefix
            && src[at..] == IndexSuffix(index)
  {
    var src := ImageSrc(prefix, index);
    assert src[..|ImagesDir|] == ImagesDir;
  }

  /** A match of `-(\d+)\.jpg` stays a match when text is put in front. */
  lemma IndexTokenMatchShift(x: string, y: string, q: nat, k: nat)
    requires IndexTokenMatch(y, q, k)
    ensures IndexTokenMatch(x + y, |x| + q, k)
  {
    SliceOfConcatRight(x, y, q + 1 + k, q + 1 + k + |Jpg|);
  }

  /** A match of `-(\d+)\.jpg` keeps its capture when text is put in front. */
  lemma TokenAtShift(x: string, y: string, q: nat)
    requires q <= |y| && TokenAt(y, q).Some?
    ensures TokenAt(x + y, |x| + q) == TokenAt(y, q)
  {
    TokenAtSound(y, q);
    var k := |TokenAt(y, q).value|;
    IndexTokenMatchShift(x, y, q, k);
    TokenAtComplete(x + y, |x| + q, k);
    SliceOfConcatRight(x, y, q + 1, q + 1 + k);
  }

  /** A match of `-(\d+)\.jpg` in `y + z` that ends within `y` is already a match in `y`. */
  lemma IndexTokenMatchExtend(y: string, z: string, q: nat, k: nat)
    requires IndexTokenMatch(y, q, k)
    ensures IndexTokenMatch(y + z, q, k)
  {
    SliceOfConcatLeft(y, z, q + 1 + k, q + 1 + k + |Jpg|);
  }

  /** A match of `-(\d+)\.jpg` keeps its capture when text is put behind it. */
  lemma TokenAtExtend(y: string, z: string, q: nat)
    requires q <= |y| && TokenAt(y, q).Some?
    ensures TokenAt(y + z, q) == TokenAt(y, q)
  {
    TokenAtSound(y, q);
    var k := |TokenAt(y, q).value|;
    IndexTokenMatchExtend(y, z, q, k);
    TokenAtComplete(y + z, q, k);
    SliceOfConcatLeft(y, z, q + 1, q + 1 + k);
  }

  /** In the file name `<prefix>-<index>.jpg`, the index regex matches right after the prefix. */
  lemma ThumbNameToken(prefix: string, index: nat)
    ensures TokenAt(ThumbName(prefix, index), |prefix|) == Some(Decimal(index))
  {
    var d := Decimal(index);
    var suf := IndexSuffix(index);
    IndexSuffixShape(index);
    assert IndexTokenMatch(suf, 0, |d|);
    TokenAtComplete(suf, 0, |d|);
    TokenAtShift(prefix, suf, 0);
  }

  /** The suffix `-<index>.jpg` of a built path is a `-\d+\.jpg` whose capture is the index's digits. */
  lemma IndexSuffixToken(prefix: string, index: nat)
    ensures TokenAt(ImageSrc(prefix, index), |ImagesDir| + |prefix|) == Some(Decimal(index))
  {
    ThumbNameToken(prefix, index);
    TokenAtShift(ImagesDir, ThumbName(prefix, index), |prefix|);
  }

  /** In a built path, no `-\d+\.jpg` starts after the `-` that ends the prefix. */
  lemma NoTokenAfterPrefix(prefix: string, index: nat)
    ensures var src := ImageSrc(prefix, index);
            forall t :: |ImagesDir| + |prefix| < t <= |src| ==> TokenAt(src, t).None?
  {
    var src := ImageSrc(prefix, index);
    var name := ThumbName(prefix, index);
    var suf := IndexSuffix(index);
    var at := |ImagesDir| + |prefix|;
    IndexSuffixShape(index);
    forall t | at < t <= |src| ensures TokenAt(src, t).None? {
      if t < |src| {
        assert src[t] == name[t - |ImagesDir|] == suf[t - at];
      }
    }
  }

  /** In a built path, `images\/(.+)-\d+\.jpg` matches at the start with the prefix as its capture. */
  lemma PrefixMatchOfImageSrc(prefix: string, index: nat)
    requires prefix != [] && NoLineTerminator(prefix)
    ensures PrefixMatch(ImageSrc(prefix, index), 0, |prefix|)
  {
    var src := ImageSrc(prefix, index);
    ImageSrcParts(prefix, index);
    IndexSuffixToken(prefix, index);
    forall m | |ImagesDir| <= m < |ImagesDir| + |prefix| ensures !IsLineTerminator(src[m]) {
      assert src[m] == src[|ImagesDir|..|ImagesDir| + |prefix|][m - |ImagesDir|];
    }
  }

  /** Parsing a built path with `getCarPrefix` gives back the prefix it was built from. */
  lemma CarPrefixOfImageSrc(prefix: string, index: nat)
    requires prefix != [] && NoLineTerminator(prefix)
    ensures GetCarPrefix(ImageSrc(prefix, index)) == Some(prefix)
  {
    var src := ImageSrc(prefix, index);
    ImageSrcParts(prefix, index);
    PrefixMatchOfImageSrc(prefix, index);
    PrefixAtIsGreedy(src, 0);
    var c := PrefixAt(src, 0).value;
    NoTokenAfterPrefix(prefix, index);
    assert |c| == |prefix|;
  }

  /** A `-\d+\.jpg` that starts before a `-` ends before it. */
  lemma TokenEndsBeforeDash(s: string, q: nat, at: nat)
    requires q < at < |s| && s[at] == '-'
    requires TokenAt(s, q).Some?
    ensures q + 1 + |TokenAt(s, q).value| + |Jpg| <= at
  {
    TokenAtSound(s, q);
    var k := |TokenAt(s, q).value|;
    if at < q + 1 + k + |Jpg| {
      assert false;
    }
  }

  /** A match of `-(\d+)\.jpg` in `x + y` that starts in `y` is a match in `y`. */
  lemma IndexTokenMatchUnshift(x: string, y: string, q: nat, k: nat)
    requires IndexTokenMatch(x + y, |x| + q, k)
    ensures IndexTokenMatch(y, q, k)
  {
    var s := x + y;
    forall m | q + 1 <= m < q + 1 + k ensures IsDigit(y[m]) {
      assert s[|x| + m] == y[m];
    }
    assert s[|x| + q] == y[q];
    SliceOfConcatRight(x, y, q + 1 + k, q + 1 + k + |Jpg|);
  }

  /** A match of `-(\d+)\.jpg` in `y + z` that ends within `y` is a match in `y`. */
  lemma IndexTokenMatchTruncate(y: string, z: string, q: nat, k: nat)
    requires IndexTokenMatch(y + z, q, k) && q + 1 + k + |Jpg| <= |y|
    ensures IndexTokenMatch(y, q, k)
  {
    var s := y + z;
    forall m | q + 1 <= m < q + 1 + k ensures IsDigit(y[m]) {
      assert s[m] == y[m];
    }
    SliceOfConcatLeft(y, z, q + 1 + k, q + 1 + k + |Jpg|);
    assert s[q] == y[q];
  }

  /**
   * A `-\d+\.jpg` that starts inside the prefix of a built path is one of
   * the prefix's own: the `-` right after the prefix stops it.
   */
  lemma TokenInsidePrefix(prefix: string, index: nat, q: nat)
    requires |ImagesDir| <= q < |ImagesDir| + |prefix|
    requires TokenAt(ImageSrc(prefix, index), q).Some?
    ensures TokenAt(prefix, q - |ImagesDir|).Some?
  {
    var src := ImageSrc(prefix, index);
    var name := ThumbName(prefix, index);
    var suf := IndexSuffix(index);
    var at := |ImagesDir| + |prefix|;
    assert src[at] == name[|prefix|] == suf[0] == '-';
    TokenEndsBeforeDash(src, q, at);
    TokenAtSound(src, q);
    var k := |TokenAt(src, q).value|;
    var q0 := q - |ImagesDir|;
    IndexTokenMatchUnshift(ImagesDir, name, q0, k);
    IndexTokenMatchTruncate(prefix, suf, q0, k);
    TokenAtComplete(prefix, q0, k);
  }

  /**
   * Parsing a built path with the initial-index rule gives back the index,
   * provided the prefix holds no `-digits.jpg` of its own.
   */
  lemma IndexOfImageSrc(prefix: string, index: nat)
    requires FindIndexToken(prefix).None?
    ensures FindIndexToken(ImageSrc(prefix, index)) == Some(Decimal(index))
    ensures IndexOf(ImageSrc(prefix, index)) == index
  {
    var src := ImageSrc(prefix, index);
    var at := |ImagesDir| + |prefix|;
    ImageSrcParts(prefix, index);
    IndexSuffixToken(prefix, index);
    FindIndexTokenIsLeftmost(prefix);
    forall q | 0 <= q < at ensures TokenAt(src, q).None? {
      if q < |ImagesDir| {
        assert src[q] == ImagesDir[q];
      } else if TokenAt(src, q).Some? {
        TokenInsidePrefix(prefix, index, q);
      }
    }
    FindIndexTokenFromFirst(src, 0, at);
    ParseDecimalOfDecimal(index);
  }

  /**
   * A thumbnail whose source is the built path, possibly made absolute by a
   * leading scheme and host, contains the file name it is matched against.
   */
  lemma ImageSrcContainsThumbName(base: string, prefix: string, index: nat)
    ensures Contains(base + ImageSrc(prefix, index), ThumbName(prefix, index))
  {
    assert base + ImageSrc(prefix, index) == (base + ImagesDir) + ThumbName(prefix, index);
    ContainsOwnSuffix(base + ImagesDir, ThumbName(prefix, index));
  }

  /**
   * When the prefix holds no `-digits.jpg` of its own, the only place in a
   * built path where `-(\d+)\.jpg` matches is right after the prefix.
   */
  lemma OnlyTokenOfImageSrc(prefix: string, index: nat, t: nat)
    requires FindIndexToken(prefix).None?
    requires t <= |ImageSrc(prefix, index)| && TokenAt(ImageSrc(prefix, index), t).Some?
    ensures t == |ImagesDir| + |prefix|
  {
    var at := |ImagesDir| + |prefix|;
    FindIndexTokenIsLeftmost(prefix);
    NoTokenAfterPrefix(prefix, index);
    if |ImagesDir| <= t < at {
      TokenInsidePrefix(prefix, index, t);
    }
  }

  /** Wherever the file name `<prefix>-<index>.jpg` occurs, the index regex matches inside it. */
  lemma OccurrenceToken(s: string, prefix: string, index: nat, o: nat)
    requires OccursAt(s, ThumbName(prefix, index), o)
    ensures o + |prefix| <= |s| && TokenAt(s, o + |prefix|) == Some(Decimal(index))
  {
    var name := ThumbName(prefix, index);
    var pre := s[..o];
    var rest := s[o + |name|..];
    assert s == pre + (name + rest) by {
      assert s == s[..o] + s[o..];
      assert s[o..] == s[o..o + |name|] + s[o + |name|..];
    }
    ThumbNameToken(prefix, index);
    TokenAtExtend(name, rest, |prefix|);
    TokenAtShift(pre, name + rest, |prefix|);
  }

  /**
   * The converse of `ImageSrcContainsThumbName`: the built path of image `j`
   * does not contain the file name of a different image `i` of the same car,
   * provided the prefix holds no `-digits.jpg` of its own.
   */
  lemma OtherImageNotHighlighted(prefix: string, i: nat, j: nat)
    requires FindIndexToken(prefix).None?
    requires i != j
    ensures !Contains(ImageSrc(prefix, j), ThumbName(prefix, i))
  {
    var src := ImageSrc(prefix, j);
    if Contains(src, ThumbName(prefix, i)) {
      var o: nat :| OccursAt(src, ThumbName(prefix, i), o);
      OccurrenceToken(src, prefix, i, o);
      OnlyTokenOfImageSrc(prefix, j, o + |prefix|);
      IndexSuffixToken(prefix, j);
      ParseDecimalOfDecimal(i);
      ParseDecimalOfDecimal(j);
      assert false;
    }
  }
}
