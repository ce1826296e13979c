/** The pure part of `utils/path.py`: how `pathlib` splits a POSIX path
    into components, which decides `_is_file_name` and `Path.parent`.
    Expanding `~` and environment variables (`_expand_path`) depends on
    the environment and is a parameter of the config validator. */
module Paths {
  import Text

  /** The components `pathlib` keeps from the pieces between slashes:
      empty pieces (from `//` or a trailing `/`) and `.` are dropped. */
  function Components(pieces: seq<string>): (cs: seq<string>)
    ensures |cs| <= |pieces|
    ensures forall c :: c in cs ==> c in pieces && c != "" && c != "."
  {
    if |pieces| == 0 then []
    else
      var rest := Components(pieces[1..]);
      if pieces[0] == "" || pieces[0] == "." then rest else [pieces[0]] + rest
  }

  predicate Absolute(p: string)
  {
    |p| > 0 && p[0] == '/'
  }

  function Parts(p: string): seq<string>
  {
    Components(Text.Split(p, '/'))
  }

  /** `_is_file_name(p)`: `Path(p).parent == Path(".")`, that is, a
      relative path of at most one component. */
  predicate IsFileName(p: string)
  {
    !Absolute(p) && |Parts(p)| <= 1
  }

  /** `str(Path(p).parent)`: every component but the last, under the root
      for an absolute path; `/` or `.` when nothing is left. */
  function Parent(p: string): string
  {
    var cs := Parts(p);
    if |cs| <= 1 then (if Absolute(p) then "/" else ".")
    else (if Absolute(p) then "/" else "") + Text.Join(cs[..|cs| - 1], '/')
  }

  /** A string without a slash splits into itself alone. */
  lemma SplitBare(p: string)
    requires '/' !in p
    ensures Text.Split(p, '/') == [p]
  {
    Text.SplitJoin([p], '/');
  }

  /** A name without a slash is a file name, whatever else it holds
      (`""`, `.`, `..` and `~` included). */
  lemma BareNameIsFileName(p: string)
    requires '/' !in p
    ensures IsFileName(p)
  {
    SplitBare(p);
  }

  /** `dir/name` with two proper components is not a file name, and its
      parent is `dir`. */
  lemma NestedName(dir: string, name: string)
    requires '/' !in dir && '/' !in name
    requires dir != "" && dir != "." && name != "" && name != "."
    ensures !IsFileName(dir + "/" + name)
    ensures Parent(dir + "/" + name) == dir
  {
    var p := dir + "/" + name;
    assert Text.Join([dir, name], '/') == p;
    Text.SplitJoin([dir, name], '/');
    assert Text.Split(p, '/') == [dir, name];
    assert [dir, name][1..] == [name];
    assert Components([name]) == [name];
    assert Parts(p) == [dir, name];
    assert Text.Join([dir], '/') == dir;
  }
}
