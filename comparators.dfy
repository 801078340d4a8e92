/**
 * The comparator registry of `sortFiles`: the value of the sort-order
 * control selects a comparator over file metadata, and the file list is
 * sorted in place with it.
 */
module Comparators {
  import opened Wrappers
  import opened Files
  import opened Sorting

  /** The sixteen order keys the registry knows. */
  datatype SortKey =
    | NameAsc | NameDesc | DateAsc | DateDesc | SizeAsc | SizeDesc | TypeAsc | TypeDesc
    | WidthAsc | WidthDesc | HeightAsc | HeightDesc
    | AspectRatioAsc | AspectRatioDesc | ResolutionAsc | ResolutionDesc

  /** The option value of the sort-order control that selects `k`. */
  function KeyName(k: SortKey): string {
    match k
    case NameAsc => "nameAsc"
    case NameDesc => "nameDesc"
    case DateAsc => "dateAsc"
    case DateDesc => "dateDesc"
    case SizeAsc => "sizeAsc"
    case SizeDesc => "sizeDesc"
    case TypeAsc => "typeAsc"
    case TypeDesc => "typeDesc"
    case WidthAsc => "widthAsc"
    case WidthDesc => "widthDesc"
    case HeightAsc => "heightAsc"
    case HeightDesc => "heightDesc"
    case AspectRatioAsc => "aspectRatioAsc"
    case AspectRatioDesc => "aspectRatioDesc"
    case ResolutionAsc => "resolutionAsc"
    case ResolutionDesc => "resolutionDesc"
  }

  /** The `switch (order)` of the comparator: which case label, if any, `order` matches. */
  function ParseSortKey(order: string): Option<SortKey> {
    if order == "nameAsc" then Some(NameAsc)
    else if order == "nameDesc" then Some(NameDesc)
    else if order == "dateAsc" then Some(DateAsc)
    else if order == "dateDesc" then Some(DateDesc)
    else if order == "sizeAsc" then Some(SizeAsc)
    else if order == "sizeDesc" then Some(SizeDesc)
    else if order == "typeAsc" then Some(TypeAsc)
    else if order == "typeDesc" then Some(TypeDesc)
    else if order == "widthAsc" then Some(WidthAsc)
    else if order == "widthDesc" then Some(WidthDesc)
    else if order == "heightAsc" then Some(HeightAsc)
    else if order == "heightDesc" then Some(HeightDesc)
    else if order == "aspectRatioAsc" then Some(AspectRatioAsc)
    else if order == "aspectRatioDesc" then Some(AspectRatioDesc)
    else if order == "resolutionAsc" then Some(ResolutionAsc)
    else if order == "resolutionDesc" then Some(ResolutionDesc)
    else None
  }

  /** Every key is selected by its own option value. */
  lemma ParseSortKeyName(k: SortKey)
    ensures ParseSortKey(KeyName(k)) == Some(k)
  {
  }

  /** A key is selected by no value other than its own. */
  lemma ParseSortKeyOnly(order: string, k: SortKey)
    requires ParseSortKey(order) == Some(k)
    ensures order == KeyName(k)
  {
    if order == "nameAsc" {
      assert k == NameAsc;
    } else if order == "nameDesc" {
      assert k == NameDesc;
    } else if order == "dateAsc" {
      assert k == DateAsc;
    } else if order == "dateDesc" {
      assert k == DateDesc;
    } else if order == "sizeAsc" {
      assert k == SizeAsc;
    } else if order == "sizeDesc" {
      assert k == SizeDesc;
    } else if order == "typeAsc" {
      assert k == TypeAsc;
    } else if order == "typeDesc" {
      assert k == TypeDesc;
    } else if order == "widthAsc" {
      assert k == WidthAsc;
    } else if order == "widthDesc" {
      assert k == WidthDesc;
    } else if order == "heightAsc" {
      assert k == HeightAsc;
    } else if order == "heightDesc" {
      assert k == HeightDesc;
    } else if order == "aspectRatioAsc" {
      assert k == AspectRatioAsc;
    } else if order == "aspectRatioDesc" {
      assert k == AspectRatioDesc;
    } else if order == "resolutionAsc" {
      assert k == ResolutionAsc;
    } else if order == "resolutionDesc" {
      assert k == ResolutionDesc;
    }
  }

  /**
   * `x - y` on numbers that may be `undefined`: the difference of two
   * defined values, and otherwise `NaN`, which `Array.prototype.sort` reads
   * as 0 (the pair is left in place).
   */
  function Minus(x: Option<int>, y: Option<int>): (r: int)
    ensures r < 0 <==> x.Some? && y.Some? && x.value < y.value
    ensures r > 0 <==> x.Some? && y.Some? && x.value > y.value
  {
    if x.Some? && y.Some? then x.value - y.value else 0
  }

  /** Swapping the operands negates the result, `NaN` (read as 0) included. */
  lemma MinusAntisymmetric(x: Option<int>, y: Option<int>)
    ensures Minus(x, y) == -Minus(y, x)
  {
  }

  /** `f.width * f.height`, `NaN` when either is undefined. */
  function Area(f: FileMeta): Option<int> {
    if f.width.Some? && f.height.Some? then Some(f.width.value * f.height.value) else None
  }

  /**
   * The comparator bodies. `collate` is `String.prototype.localeCompare`,
   * whose locale rules live outside this model.
   */
  function KeyCompare(k: SortKey, collate: (string, string) -> int, a: FileMeta, b: FileMeta): int {
    match k
    case NameAsc => collate(a.name, b.name)
    case NameDesc => collate(b.name, a.name)
    case DateAsc => a.lastModified - b.lastModified
    case DateDesc => b.lastModified - a.lastModified
    case SizeAsc => a.size - b.size
    case SizeDesc => b.size - a.size
    case TypeAsc => collate(a.mime, b.mime)
    case TypeDesc => collate(b.mime, a.mime)
    case WidthAsc => Minus(a.width, b.width)
    case WidthDesc => Minus(b.width, a.width)
    case HeightAsc => Minus(a.height, b.height)
    case HeightDesc => Minus(b.height, a.height)
    case AspectRatioAsc => Minus(a.aspectRatio, b.aspectRatio)
    case AspectRatioDesc => Minus(b.aspectRatio, a.aspectRatio)
    case ResolutionAsc => Minus(Area(a), Area(b))
    case ResolutionDesc => Minus(Area(b), Area(a))
  }

  /** The comparator handed to `files.sort`; an unrecognised order compares every pair as 0. */
  function Compare(order: string, collate: (string, string) -> int, a: FileMeta, b: FileMeta): int {
    match ParseSortKey(order)
    case None => 0
    case Some(k) => KeyCompare(k, collate, a, b)
  }

  function Comparator(order: string, collate: (string, string) -> int): (FileMeta, FileMeta) -> int {
    (a: FileMeta, b: FileMeta) => Compare(order, collate, a, b)
  }

  /** `sortFiles(files, order)`: `files.sort(comparator)`, in place. */
  method SortFiles(files: array<FileMeta>, order: string, collate: (string, string) -> int)
    modifies files
    ensures files[..] == SortedBy(old(files[..]), Comparator(order, collate))
  {
    SortInPlace(files, Comparator(order, collate));
  }

  predicate IsAscending(k: SortKey) {
    k in {NameAsc, DateAsc, SizeAsc, TypeAsc, WidthAsc, HeightAsc, AspectRatioAsc, ResolutionAsc}
  }

  /** The key of the same field in the other direction. */
  function Reverse(k: SortKey): (r: SortKey)
    ensures IsAscending(r) <==> !IsAscending(k)
  {
    match k
    case NameAsc => NameDesc
    case NameDesc => NameAsc
    case DateAsc => DateDesc
    case DateDesc => DateAsc
    case SizeAsc => SizeDesc
    case SizeDesc => SizeAsc
    case TypeAsc => TypeDesc
    case TypeDesc => TypeAsc
    case WidthAsc => WidthDesc
    case WidthDesc => WidthAsc
    case HeightAsc => HeightDesc
    case HeightDesc => HeightAsc
    case AspectRatioAsc => AspectRatioDesc
    case AspectRatioDesc => AspectRatioAsc
    case ResolutionAsc => ResolutionDesc
    case ResolutionDesc => ResolutionAsc
  }

  /** Every descending comparator is its ascending partner with the arguments swapped. */
  lemma DescendingIsSwappedAscending(k: SortKey, collate: (string, string) -> int, a: FileMeta, b: FileMeta)
    ensures Reverse(Reverse(k)) == k
    ensures KeyCompare(Reverse(k), collate, a, b) == KeyCompare(k, collate, b, a)
  {
  }

  /** An unrecognised order value leaves the list exactly as it was. */
  lemma UnknownOrderKeepsInput(files: seq<FileMeta>, order: string, collate: (string, string) -> int)
    requires ParseSortKey(order).None?
    ensures SortedBy(files, Comparator(order, collate)) == files
  {
    SortedByKeepsOrder(files, Comparator(order, collate));
  }

  predicate IsDimensionKey(k: SortKey) {
    k in {WidthAsc, WidthDesc, HeightAsc, HeightDesc, AspectRatioAsc, AspectRatioDesc, ResolutionAsc, ResolutionDesc}
  }

  predicate Undecoded(f: FileMeta) {
    f.width.None? && f.height.None? && f.aspectRatio.None?
  }

  lemma DimensionKeyIgnoresUndecoded(k: SortKey, collate: (string, string) -> int, a: FileMeta, b: FileMeta)
    requires IsDimensionKey(k) && Undecoded(a)
    ensures KeyCompare(k, collate, a, b) == 0
  {
    assert Area(a).None?;
  }

  /**
   * Files that have not been decoded carry no dimensions, so a width,
   * height, aspect-ratio or resolution order leaves them as they were.
   */
  lemma DimensionOrderKeepsUndecoded(files: seq<FileMeta>, order: string, collate: (string, string) -> int)
    requires ParseSortKey(order).Some? && IsDimensionKey(ParseSortKey(order).value)
    requires forall i :: 0 <= i < |files| ==> Undecoded(files[i])
    ensures SortedBy(files, Comparator(order, collate)) == files
  {
    var k := ParseSortKey(order).value;
    forall i, j | 0 <= i < j < |files|
      ensures Comparator(order, collate)(files[i], files[j]) <= 0
    {
      DimensionKeyIgnoresUndecoded(k, collate, files[i], files[j]);
    }
    SortedByKeepsOrder(files, Comparator(order, collate));
  }

  /** `localeCompare` taken as a total preorder on strings. */
  ghost predicate CollationOrder(collate: (string, string) -> int) {
    && (forall s, t :: collate(s, t) <= 0 || collate(t, s) <= 0)
    && (forall s, t, v :: collate(s, t) <= 0 && collate(t, v) <= 0 ==> collate(s, v) <= 0)
  }

  /**
   * Each registered comparator is consistent on a set of files when the
   * collation is a total preorder and, for the dimension keys, every file
   * has been decoded.
   */
  lemma ComparatorConsistent(order: string, collate: (string, string) -> int, u: set<FileMeta>)
    requires CollationOrder(collate)
    requires ParseSortKey(order).Some?
    requires IsDimensionKey(ParseSortKey(order).value) ==> forall f :: f in u ==> Decoded(f)
    ensures ConsistentOn(Comparator(order, collate), u)
  {
    var cmp := Comparator(order, collate);
    var k := ParseSortKey(order).value;
    forall a, b | a in u && b in u
      ensures cmp(a, b) <= 0 || cmp(b, a) <= 0
    {
      DescendingIsSwappedAscending(k, collate, a, b);
    }
    forall a, b, c | a in u && b in u && c in u && cmp(a, b) <= 0 && cmp(b, c) <= 0
      ensures cmp(a, c) <= 0
    {
      KeyTransitive(k, collate, a, b, c);
    }
  }

  /** "Not after" is transitive for each key, on files that carry the fields it compares. */
  lemma KeyTransitive(k: SortKey, collate: (string, string) -> int, a: FileMeta, b: FileMeta, c: FileMeta)
    requires CollationOrder(collate)
    requires IsDimensionKey(k) ==> Decoded(a) && Decoded(b) && Decoded(c)
    requires KeyCompare(k, collate, a, b) <= 0 && KeyCompare(k, collate, b, c) <= 0
    ensures KeyCompare(k, collate, a, c) <= 0
  {
    match k
    case NameAsc =>
    case NameDesc =>
    case TypeAsc =>
    case TypeDesc =>
    case _ =>
  }

  /**
   * Sorting by a registered key puts the files in that key's order, and
   * the result is a rearrangement of the input.
   */
  lemma SortFilesOrdered(files: seq<FileMeta>, order: string, collate: (string, string) -> int)
    requires CollationOrder(collate)
    requires ParseSortKey(order).Some?
    requires IsDimensionKey(ParseSortKey(order).value) ==> forall i :: 0 <= i < |files| ==> Decoded(files[i])
    ensures var r := SortedBy(files, Comparator(order, collate));
      && multiset(r) == multiset(files)
      && forall i, j :: 0 <= i < j < |r| ==> Compare(order, collate, r[i], r[j]) <= 0
  {
    var u := set i | 0 <= i < |files| :: files[i];
    ComparatorConsistent(order, collate, u);
    SortedBySorted(files, Comparator(order, collate), u);
    SortedByPermutes(files, Comparator(order, collate));
  }
}
