/**
 * The records the pipeline works on: an imported file's metadata, the
 * dimensions its decoding yields, and the picture it becomes on the photo
 * wall.
 */
module Files {
  import opened Wrappers

  /**
   * A `File` as `sortFiles` sees it. `width`, `height` and `aspectRatio`
   * are written onto the file object when it is decoded, so they are
   * `undefined` (`None`) on a file that has not been decoded yet. The aspect
   * ratio is kept as a whole number of hundredths (the value of
   * `parseFloat((w / h).toFixed(2))` times 100).
   */
  datatype FileMeta = FileMeta(
    name: string,
    lastModified: int,
    size: nat,
    mime: string,
    width: Option<nat>,
    height: Option<nat>,
    aspectRatio: Option<int>)

  /** What decoding an image yields: its natural size and rounded aspect ratio. */
  datatype Dims = Dims(width: nat, height: nat, aspectRatio: int)

  /** A picture on the photo wall: the file it came from and its decoded size. */
  datatype Photo = Photo(file: FileMeta, dims: Dims)

  /** `file.type.startsWith('image/')`. */
  predicate IsImage(f: FileMeta) {
    "image/" <= f.mime
  }

  /** The file object after `loadImage` has written its decoded size onto it. */
  function WithDims(f: FileMeta, d: Dims): (g: FileMeta)
    ensures g.width == Some(d.width) && g.height == Some(d.height) && g.aspectRatio == Some(d.aspectRatio)
    ensures g.name == f.name && g.lastModified == f.lastModified && g.size == f.size && g.mime == f.mime
  {
    f.(width := Some(d.width), height := Some(d.height), aspectRatio := Some(d.aspectRatio))
  }

  predicate Decoded(f: FileMeta) {
    f.width.Some? && f.height.Some? && f.aspectRatio.Some?
  }
}
