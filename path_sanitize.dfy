/** The two path steps both route handlers share: the `while ".." in path`
    loop that deletes parent references (app/main.py and main.py), and
    `os.path.join` (the POSIX flavour), which builds the file names. */
module PathSanitize {
  import opened Text

  const DotDot: string := ".."

  /** The path the `..` loop ends with: delete every `..` (Python's
      `replace("..", "")`) and repeat while one is left, since deleting can
      bring two dots together (`"...."` needs one round, `"..."` leaves `"."`,
      `".a.."` leaves `".a"`). */
  function WithoutDotDots(s: string): (r: string)
    ensures !Contains(r, DotDot)
    ensures |r| <= |s|
    decreases |s|
  {
    if Contains(s, DotDot) then
      RemoveAllShrinks(s, DotDot);
      WithoutDotDots(ReplaceAll(s, DotDot, []))
    else s
  }

  /** Only dots are deleted: every other character keeps its count. */
  lemma {:induction false} WithoutDotDotsKeepsOthers(s: string, x: char)
    requires x != '.'
    ensures multiset(WithoutDotDots(s))[x] == multiset(s)[x]
    decreases |s|
  {
    if Contains(s, DotDot) {
      RemoveAllShrinks(s, DotDot);
      RemoveAllKeepsOthers(s, DotDot, x);
      WithoutDotDotsKeepsOthers(ReplaceAll(s, DotDot, []), x);
    }
  }

  /** The loop itself: `while ".." in path: path = path.replace("..", "")`. */
  method StripParentRefs(path: string) returns (r: string)
    ensures r == WithoutDotDots(path)
  {
    r := path;
    while Contains(r, DotDot)
      invariant WithoutDotDots(r) == WithoutDotDots(path)
      decreases |r|
    {
      RemoveAllShrinks(r, DotDot);
      r := ReplaceAll(r, DotDot, []);
    }
  }

  /** Python's `posixpath.join(a, *rest)`: a component that starts with `/`
      discards everything before it; otherwise a `/` is put in between
      unless the path so far is empty or already ends with one. */
  function PathJoin(a: string, rest: seq<string>): string
    decreases |rest|
  {
    if rest == [] then a
    else
      var b := rest[0];
      var next :=
        if [ '/' ] <= b then b
        else if a == [] || EndsWith(a, "/") then a + b
        else a + "/" + b;
      PathJoin(next, rest[1..])
  }

  /** When no component is absolute, the joined path starts with the first
      argument and ends with the last component. */
  lemma {:induction false} PathJoinConfined(a: string, rest: seq<string>)
    requires forall k :: 0 <= k < |rest| ==> !([ '/' ] <= rest[k])
    ensures a <= PathJoin(a, rest)
    ensures rest != [] ==> EndsWith(PathJoin(a, rest), rest[|rest| - 1])
    decreases |rest|
  {
    if rest != [] {
      var b := rest[0];
      var next := if a == [] || EndsWith(a, "/") then a + b else a + "/" + b;
      assert PathJoin(a, rest) == PathJoin(next, rest[1..]);
      PathJoinConfined(next, rest[1..]);
      assert a <= next;
      if |rest| == 1 {
        assert next[|next| - |b|..] == b;
      }
    }
  }

  /** For a relative directory name that does not end in `/` and components
      that are non-empty and hold no `/`, joining is plain concatenation with
      `/` in between. */
  lemma {:induction false} PathJoinPlain(a: string, rest: seq<string>)
    requires a != [] && !EndsWith(a, "/")
    requires forall k :: 0 <= k < |rest| ==> rest[k] != [] && '/' !in rest[k]
    ensures PathJoin(a, rest) == if rest == [] then a else a + "/" + Join(rest, '/')
    decreases |rest|
  {
    if rest != [] {
      var b := rest[0];
      assert !([ '/' ] <= b) by { assert b[0] != '/'; }
      var next := a + "/" + b;
      assert !EndsWith(next, "/") by { assert next[|next| - 1] == b[|b| - 1]; }
      PathJoinPlain(next, rest[1..]);
      if |rest| > 1 {
        assert next + "/" + Join(rest[1..], '/') == a + "/" + Join(rest, '/');
      }
    }
  }
}
