/**
 * The import loop of `handleFiles`: the sorted files are visited in order,
 * every image is decoded and put on the photo wall, and the decoded size is
 * written back onto its file object. A file that fails to decode makes the
 * whole import throw.
 */
module Importing {
  import opened Wrappers
  import opened Files
  import opened Progress
  import opened ImageProcessing

  /**
   * The state after visiting some files: the file objects as they are
   * now, the photo wall, the progress texts shown, and whether an image
   * failed to decode.
   */
  datatype Imported = Imported(files: seq<FileMeta>, wall: seq<Photo>, shown: seq<Message>, failed: bool)

  /**
   * The import of the files `fs`, the first files of a list of `total`;
   * after the `k`-th file (1-based), if it is an image, the progress shows
   * `round(min(k / total, 1) * 100)`. Once a decode failed nothing else
   * happens.
   */
  function Import(fs: seq<FileMeta>, total: nat, decode: FileMeta -> Option<Dims>): (imp: Imported)
    requires |fs| <= total
    ensures |imp.files| == |fs|
    decreases |fs|
  {
    if fs == [] then Imported([], [], [], false)
    else
      var prev := Import(fs[..|fs| - 1], total, decode);
      var f := fs[|fs| - 1];
      if prev.failed || !IsImage(f) then Imported(prev.files + [f], prev.wall, prev.shown, prev.failed)
      else match decode(f)
        case None => Imported(prev.files + [f], prev.wall, prev.shown, true)
        case Some(d) =>
          Imported(prev.files + [WithDims(f, d)], prev.wall + [Photo(WithDims(f, d), d)],
                   prev.shown + [Percentage(ImportingFiles, Percent(|fs|, total))], false)
  }

  /** After a failure the remaining files are left as they were and nothing more is shown. */
  lemma {:induction false} ImportAfterFailure(fs: seq<FileMeta>, k: nat, total: nat, decode: FileMeta -> Option<Dims>)
    requires k <= |fs| <= total
    requires Import(fs[..k], total, decode).failed
    ensures var before := Import(fs[..k], total, decode);
      Import(fs, total, decode) == Imported(before.files + fs[k..], before.wall, before.shown, true)
    decreases |fs| - k
  {
    if k == |fs| {
      assert fs[..k] == fs;
    } else {
      var init := fs[..|fs| - 1];
      assert init[..k] == fs[..k];
      ImportAfterFailure(init, k, total, decode);
      var before := Import(fs[..k], total, decode);
      assert init == fs[..|fs| - 1];
      assert before.files + init[k..] + [fs[|fs| - 1]] == before.files + fs[k..];
    }
  }

  /** The photos an import puts on the wall when nothing fails: the decoded images, in order. */
  function Photos(fs: seq<FileMeta>, decode: FileMeta -> Option<Dims>): seq<Photo>
  {
    if fs == [] then []
    else
      var f := fs[0];
      (if IsImage(f) && decode(f).Some? then [Photo(WithDims(f, decode(f).value), decode(f).value)] else [])
        + Photos(fs[1..], decode)
  }

  lemma {:induction false} PhotosSnoc(fs: seq<FileMeta>, f: FileMeta, decode: FileMeta -> Option<Dims>)
    ensures Photos(fs + [f], decode) ==
      Photos(fs, decode) + if IsImage(f) && decode(f).Some? then [Photo(WithDims(f, decode(f).value), decode(f).value)] else []
    decreases |fs|
  {
    if fs == [] {
      assert [f][1..] == [];
    } else {
      assert (fs + [f])[1..] == fs[1..] + [f];
      PhotosSnoc(fs[1..], f, decode);
    }
  }

  /** An image that does not decode. */
  predicate Undecodable(f: FileMeta, decode: FileMeta -> Option<Dims>) {
    IsImage(f) && decode(f).None?
  }

  /**
   * The import fails exactly when some image does not decode. When it
   * succeeds, the wall holds every image of the list, decoded, in order,
   * and every image's file object carries its decoded size; files that are
   * not images are left alone.
   */
  lemma {:induction false} ImportOutcome(fs: seq<FileMeta>, total: nat, decode: FileMeta -> Option<Dims>)
    requires |fs| <= total
    ensures var imp := Import(fs, total, decode);
      && (imp.failed <==> exists j :: 0 <= j < |fs| && Undecodable(fs[j], decode))
      && (!imp.failed ==> imp.wall == Photos(fs, decode))
      && (!imp.failed ==> forall j :: 0 <= j < |fs| ==>
            imp.files[j] == if IsImage(fs[j]) then WithDims(fs[j], decode(fs[j]).value) else fs[j])
    decreases |fs|
  {
    if fs != [] {
      var init, f := fs[..|fs| - 1], fs[|fs| - 1];
      ImportOutcome(init, total, decode);
      PhotosSnoc(init, f, decode);
      assert init + [f] == fs;
      var prev := Import(init, total, decode);
      var imp := Import(fs, total, decode);
      if prev.failed {
        var j :| 0 <= j < |init| && Undecodable(init[j], decode);
        assert fs[j] == init[j];
      } else if imp.failed {
        assert Undecodable(fs[|fs| - 1], decode);
      } else {
        forall j | 0 <= j < |fs| ensures !Undecodable(fs[j], decode) {
          if j < |init| {
            assert fs[j] == init[j];
          }
        }
        forall j | 0 <= j < |fs|
          ensures imp.files[j] == if IsImage(fs[j]) then WithDims(fs[j], decode(fs[j]).value) else fs[j]
        {
          if j < |init| {
            assert imp.files[j] == prev.files[j] && fs[j] == init[j];
          }
        }
      }
    }
  }

  /** Decoding only adds the size: name, date, size and type of every file object stay as they were. */
  lemma {:induction false} ImportKeepsMetadata(fs: seq<FileMeta>, total: nat, decode: FileMeta -> Option<Dims>)
    requires |fs| <= total
    ensures var imp := Import(fs, total, decode);
      forall j :: 0 <= j < |fs| ==>
        && imp.files[j].name == fs[j].name && imp.files[j].lastModified == fs[j].lastModified
        && imp.files[j].size == fs[j].size && imp.files[j].mime == fs[j].mime
    decreases |fs|
  {
    if fs != [] {
      var init := fs[..|fs| - 1];
      ImportKeepsMetadata(init, total, decode);
      var imp, prev := Import(fs, total, decode), Import(init, total, decode);
      forall j | 0 <= j < |init|
        ensures imp.files[j] == prev.files[j] && fs[j] == init[j]
      {
      }
    }
  }

  /** Only images reach the wall, and each photo carries its own decoded size. */
  lemma {:induction false} ImportWallImages(fs: seq<FileMeta>, total: nat, decode: FileMeta -> Option<Dims>)
    requires |fs| <= total
    ensures var imp := Import(fs, total, decode);
      && |imp.wall| <= |fs|
      && forall j :: 0 <= j < |imp.wall| ==>
           && IsImage(imp.wall[j].file) && Decoded(imp.wall[j].file)
           && imp.wall[j].file.width == Some(imp.wall[j].dims.width) && imp.wall[j].file.height == Some(imp.wall[j].dims.height)
    decreases |fs|
  {
    if fs != [] {
      ImportWallImages(fs[..|fs| - 1], total, decode);
    }
  }

  /** Progress texts of one stage whose percentages lie in 0..`bound` and never decrease. */
  predicate Rising(ms: seq<Message>, stage: Stage, bound: int) {
    && (forall j :: 0 <= j < |ms| ==> ms[j].Percentage? && ms[j].stage == stage && 0 <= ms[j].percent <= bound)
    && (forall i, j :: 0 <= i <= j < |ms| ==> ms[i].percent <= ms[j].percent)
  }

  /** The import percentages never decrease and never pass the share of files visited so far. */
  lemma {:induction false} ImportProgress(fs: seq<FileMeta>, total: nat, decode: FileMeta -> Option<Dims>)
    requires 0 < |fs| <= total
    ensures Rising(Import(fs, total, decode).shown, ImportingFiles, Percent(|fs|, total))
    ensures Percent(|fs|, total) <= 100
    decreases |fs|
  {
    var init := fs[..|fs| - 1];
    var ms, prev := Import(fs, total, decode).shown, Import(init, total, decode).shown;
    PercentBounds(|fs|, total);
    if init != [] {
      ImportProgress(init, total, decode);
      PercentMonotone(|init|, |fs|, total);
    } else {
      assert prev == [];
    }
    assert ms == prev || ms == prev + [Percentage(ImportingFiles, Percent(|fs|, total))];
  }
}
