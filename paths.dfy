/**
 * `std::path::PathBuf` as the sequence of its components.
 *
 * A path is compared, prefixed and shortened component by component, as Rust's
 * `Path` does. The root directory is the component "/", and it can only be a
 * path's first component.
 */
module Paths {
  import opened Wrappers

  type Component = string

  type Path = seq<Component>

  /** `Component::RootDir`. */
  const RootDir: Component := "/"

  /** `path.starts_with(base)`: `base` is a component prefix of `path`. */
  predicate StartsWith(path: Path, base: Path)
  {
    |base| <= |path| && path[..|base|] == base
  }

  /** `path.parent()`: none for the empty path and for the root, else the path without its last component. */
  function Parent(path: Path): (r: Option<Path>)
    ensures r.Some? ==> |path| > 0 && r.value + [path[|path| - 1]] == path
    ensures r.None? <==> path == [] || path == [RootDir]
  {
    if path == [] || path == [RootDir] then None else Some(path[..|path| - 1])
  }

  /** `path.components().count()`. */
  function ComponentCount(path: Path): nat
  {
    |path|
  }

  /** A component prefix never has more components than the path it prefixes. */
  lemma StartsWithCount(path: Path, base: Path)
    requires StartsWith(path, base)
    ensures ComponentCount(base) <= ComponentCount(path)
    ensures ComponentCount(base) == ComponentCount(path) ==> base == path
  {
  }

  /** Component prefixes of one path are ordered by length. */
  lemma StartsWithTransitive(a: Path, b: Path, c: Path)
    requires StartsWith(a, b) && StartsWith(b, c)
    ensures StartsWith(a, c)
  {
    assert a[..|c|] == a[..|b|][..|c|];
  }
}
