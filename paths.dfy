/**
 * Absolute filesystem paths as the sequence of their components below the
 * root: `/data/adb/modules/foo` is ["data", "adb", "modules", "foo"] and the
 * root `/` itself is []. The operations are the few `std::path::Path`
 * methods the mount code relies on.
 */
module Paths {
  import opened Wrappers
  import opened Text

  type Path = seq<string>

  /** A normal component: non-empty and free of the separator. */
  predicate IsComponent(c: string) {
    c != [] && '/' !in c
  }

  predicate WellFormed(p: Path) {
    forall i :: 0 <= i < |p| ==> IsComponent(p[i])
  }

  /** `Path::parent`: everything but the last component; the root has none. */
  function Parent(p: Path): (r: Option<Path>)
    ensures r.Some? <==> p != []
    ensures r.Some? ==> |r.value| == |p| - 1 && r.value <= p
  {
    if p == [] then None else Some(p[..|p| - 1])
  }

  /** `Path::file_name`: the last component; the root has none. */
  function FileName(p: Path): (r: Option<string>)
    ensures r.Some? <==> p != []
    ensures r.Some? ==> r.value == p[|p| - 1]
  {
    if p == [] then None else Some(p[|p| - 1])
  }

  /** `Path::join` with a relative path: its components follow those of `base`. */
  function Join(base: Path, rel: Path): (r: Path)
    ensures |r| == |base| + |rel|
    ensures base <= r
  {
    base + rel
  }

  /** `Path::strip_prefix`: what remains of `p` below `base`, if `base` is an ancestor of (or equal to) `p`. */
  function StripPrefix(p: Path, base: Path): (r: Option<Path>)
    ensures r.Some? <==> base <= p
    ensures r.Some? ==> Join(base, r.value) == p
  {
    if base <= p then Some(p[|base|..]) else None
  }

  /** The parent of `m` joined with one component is `m`, and its file name is that component. */
  lemma ParentOfChild(m: Path, c: string)
    ensures Parent(Join(m, [c])) == Some(m)
    ensures FileName(Join(m, [c])) == Some(c)
  {
    assert (m + [c])[..|m|] == m;
  }

  /** `Path::display` for an absolute path: a slash, then the components separated by slashes. */
  function Display(p: Path): string
  {
    "/" + JoinWith(p, '/')
  }

  /** Reads a displayed absolute path back; None for text that no well-formed path displays as. */
  function ParseDisplay(s: string): (r: Option<Path>)
    ensures r.Some? ==> WellFormed(r.value)
  {
    if s == "/" then Some([])
    else if |s| >= 2 && s[0] == '/' then
      var cs := Split(s[1..], '/');
      if forall i :: 0 <= i < |cs| ==> IsComponent(cs[i]) then Some(cs) else None
    else None
  }

  /** Display is injective on well-formed paths: the text gives the path back. */
  lemma {:induction false} DisplayRoundTrip(p: Path)
    requires WellFormed(p)
    ensures ParseDisplay(Display(p)) == Some(p)
  {
    var s := Display(p);
    if p != [] {
      JoinWithStartsWithFirst(p, '/');
      assert |JoinWith(p, '/')| >= 1;
      assert s[1..] == JoinWith(p, '/');
      SplitJoinWith(p, '/');
    }
  }

  /** A character other than the slash that occurs in no component does not occur in the display. */
  lemma DisplayAvoids(p: Path, c: char)
    requires c != '/'
    requires forall i :: 0 <= i < |p| ==> c !in p[i]
    ensures c !in Display(p)
  {
    JoinWithAvoids(p, '/', c);
  }
}
