/**
 * The page planner: the photo wall is cut into pages of `imagesPerCapture`
 * (rows times columns) photos, in order, and page `k` (1-based) is saved as
 * `NNN.<format>`.
 */
module Paging {
  import opened Wrappers
  import opened Text

  /** `Math.ceil(n / c)`: the fewest pages of `c` that hold `n` photos. */
  function CeilDiv(n: nat, c: nat): (k: nat)
    requires c >= 1
    ensures n <= k * c
    ensures k == 0 || (k - 1) * c < n
  {
    (n + c - 1) / c
  }

  /** The pages of `c` photos each, the last one possibly shorter. */
  function Pages<T>(photos: seq<T>, c: nat): seq<seq<T>>
    requires c >= 1
    decreases |photos|
  {
    if |photos| == 0 then []
    else if |photos| <= c then [photos]
    else [photos[..c]] + Pages(photos[c..], c)
  }

  function Flatten<T>(pages: seq<seq<T>>): seq<T>
  {
    if pages == [] then [] else pages[0] + Flatten(pages[1..])
  }

  /** Putting the pages back together, in order, gives the photo wall back. */
  lemma {:induction false} PagesFlatten<T>(photos: seq<T>, c: nat)
    requires c >= 1
    ensures Flatten(Pages(photos, c)) == photos
    decreases |photos|
  {
    if |photos| > c {
      var ps := Pages(photos, c);
      assert ps[1..] == Pages(photos[c..], c);
      PagesFlatten(photos[c..], c);
      assert photos == photos[..c] + photos[c..];
    } else if |photos| > 0 {
      assert Pages(photos, c)[1..] == [];
    }
  }

  /** There are `ceil(n / c)` pages, none when there are no photos. */
  lemma {:induction false} PagesCount<T>(photos: seq<T>, c: nat)
    requires c >= 1
    ensures |Pages(photos, c)| == CeilDiv(|photos|, c)
    decreases |photos|
  {
    var n := |photos|;
    if 0 < n <= c {
      CeilDivUnique(n, c, 1);
    } else if n > c {
      assert |Pages(photos, c)| == 1 + |Pages(photos[c..], c)|;
      PagesCount(photos[c..], c);
      CeilDivStep(n, c);
    }
  }

  /** One more full page of photos takes exactly one more page. */
  lemma CeilDivStep(n: nat, c: nat)
    requires c >= 1 && n > c
    ensures CeilDiv(n, c) == CeilDiv(n - c, c) + 1
  {
    var k := CeilDiv(n - c, c);
    assert k >= 1;
    assert (k + 1) * c == k * c + c;
    assert (k + 1 - 1) * c == k * c;
    CeilDivUnique(n, c, k + 1);
  }

  lemma MulSucc(k: nat, c: nat)
    ensures (k + 1) * c == k * c + c
  {
  }

  lemma MulMono(x: int, y: int, c: nat)
    requires x <= y
    ensures x * c <= y * c
  {
  }

  /** `CeilDiv` is the one count that both holds every photo and leaves no page empty. */
  lemma CeilDivUnique(n: nat, c: nat, k: nat)
    requires c >= 1
    requires n <= k * c
    requires k == 0 || (k - 1) * c < n
    ensures k == CeilDiv(n, c)
  {
    var q := CeilDiv(n, c);
    if k < q {
      MulMono(k, q - 1, c);
    } else if k > q {
      MulMono(q, k - 1, c);
    }
  }

  /**
   * Page `k` (0-based) is the slice `photos[k*c .. min(k*c + c, n)]`,
   * which is what `photos.slice(i, i + imagesPerCapture)` takes at
   * `i == k*c`; it is not empty, it holds at most `c` photos, and only the
   * last page holds fewer.
   */
  lemma {:induction false} PageSlice<T>(photos: seq<T>, c: nat, k: nat)
    requires c >= 1
    requires k < |Pages(photos, c)|
    ensures k * c < |photos|
    ensures Pages(photos, c)[k] == photos[k * c .. Min(k * c + c, |photos|)]
    ensures 1 <= |Pages(photos, c)[k]| <= c
    ensures k < |Pages(photos, c)| - 1 ==> |Pages(photos, c)[k]| == c
    decreases k
  {
    var n := |photos|;
    if k > 0 {
      assert n > c;
      var rest := photos[c..];
      assert Pages(photos, c)[k] == Pages(rest, c)[k - 1];
      PageSlice(rest, c, k - 1);
      assert (k - 1) * c + c == k * c;
      assert rest[(k - 1) * c .. Min((k - 1) * c + c, n - c)] == photos[k * c .. Min(k * c + c, n)];
    }
  }

  /** At `i == k * c` the loop's `i / imagesPerCapture` is the page index `k`. */
  lemma MulDivCancel(k: nat, c: nat)
    requires c >= 1
    ensures (k * c) / c == k
  {
    var q := (k * c) / c;
    if q < k {
      MulMono(q + 1, k, c);
    } else if q > k {
      MulMono(k + 1, q, c);
    }
  }

  /**
   * The cursor of the capture loop: `i` is the first photo of page `k`,
   * and the loop is still going exactly while there is a page `k`.
   */
  predicate Cursor<T>(photos: seq<T>, c: nat, k: nat, i: nat)
    requires c >= 1
  {
    k <= |Pages(photos, c)| && i == k * c && (k < |Pages(photos, c)| <==> i < |photos|)
  }

  lemma CursorStart<T>(photos: seq<T>, c: nat)
    requires c >= 1
    ensures Cursor(photos, c, 0, 0)
  {
    if |photos| > 0 {
      PageSlice(photos, c, 0);
    }
  }

  /** `photos.slice(i, i + c)` is page `k`, its number is `i / c + 1`, and `i += c` moves the cursor to page `k + 1`. */
  lemma CursorNext<T>(photos: seq<T>, c: nat, k: nat, i: nat)
    requires c >= 1
    requires Cursor(photos, c, k, i) && i < |photos|
    ensures k < |Pages(photos, c)|
    ensures photos[i..Min(i + c, |photos|)] == Pages(photos, c)[k]
    ensures i / c + 1 == k + 1
    ensures Cursor(photos, c, k + 1, i + c)
  {
    PageSlice(photos, c, k);
    MulDivCancel(k, c);
    MulSucc(k, c);
    if k + 1 < |Pages(photos, c)| {
      PageSlice(photos, c, k + 1);
    } else {
      PagesEnd(photos, c);
    }
  }

  /** Once `i` has passed `ceil(n / c)` pages it has run past the last photo. */
  lemma PagesEnd<T>(photos: seq<T>, c: nat)
    requires c >= 1
    ensures |Pages(photos, c)| * c >= |photos|
  {
    PagesCount(photos, c);
  }

  /** `(k + 1).toString().padStart(3, '0') + "." + format`: the name of page `k + 1`. */
  function PageName(number: nat, format: string): string
  {
    PadStart(NatToString(number), 3, '0') + ("." + format)
  }

  /** The number part of a page name is all digits and reads back as the page number. */
  lemma PageNameNumber(number: nat, format: string)
    ensures var p := PadStart(NatToString(number), 3, '0');
      && PageName(number, format) == p + ("." + format)
      && AllDigits(p) && DecimalValue(p) == number
      && (number < 1000 ==> |p| == 3)
  {
    ZeroPaddedValue(number, 3);
    if number < 1000 {
      var d := if number < 10 then 1 else if number < 100 then 2 else 3;
      NatToStringLength(number, d);
    }
  }

  /** Two pages of one export never share a file name. */
  lemma PageNamesDistinct(m: nat, n: nat, format: string)
    requires m != n
    ensures PageName(m, format) != PageName(n, format)
  {
    PageNameNumber(m, format);
    PageNameNumber(n, format);
    var p, q := PadStart(NatToString(m), 3, '0'), PadStart(NatToString(n), 3, '0');
    if PageName(m, format) == PageName(n, format) {
      SameSuffix(p, q, "." + format);
    }
  }

  lemma SameSuffix(p: string, q: string, t: string)
    requires p + t == q + t
    ensures p == q
  {
    assert |p| == |q|;
    assert p == (p + t)[..|p|];
    assert q == (q + t)[..|q|];
  }

  /** Page 1 is `001.<format>` and page 12 is `012.<format>`. */
  lemma PageNameExamples(format: string)
    ensures PageName(1, format) == "001." + format
    ensures PageName(12, format) == "012." + format
  {
    assert NatToString(1) == "1";
    assert NatToString(12) == NatToString(1) + "2";
    assert Repeat('0', 2) == "00";
    assert Repeat('0', 1) == "0";
  }
}
