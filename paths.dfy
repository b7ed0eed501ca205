/**
 * POSIX path handling as Node's `path` module does it, on absolute paths:
 * `path.join` (join with "/", then normalise), `path.extname`, and the
 * string-prefix test the delete route uses as its containment check.
 */
module Paths {
  /** An absolute, normalised path as its sequence of segments: `/a/b` is ["a", "b"]. */
  type Path = seq<string>

  /** A segment a normalised path can hold: non-empty, no "/", not "." or "..". */
  predicate PlainSegment(s: string)
  {
    s != "" && s != "." && s != ".." && '/' !in s
  }

  predicate PlainPath(p: Path)
  {
    forall k :: 0 <= k < |p| ==> PlainSegment(p[k])
  }

  predicate NoSlashes(segs: seq<string>)
  {
    forall k :: 0 <= k < |segs| ==> '/' !in segs[k]
  }

  /** `s.split("/")`: the pieces between slashes, empty ones included. */
  function Split(s: string): (parts: seq<string>)
    ensures |parts| >= 1
    ensures NoSlashes(parts)
  {
    if s == [] then [""]
    else
      var rest := Split(s[1..]);
      if s[0] == '/' then [""] + rest
      else [[s[0]] + rest[0]] + rest[1..]
  }

  lemma {:induction false} SplitNoSlash(s: string)
    requires '/' !in s
    ensures Split(s) == [s]
  {
    if s != [] {
      SplitNoSlash(s[1..]);
      assert [s[0]] + s[1..] == s;
    }
  }

  /** Splitting at a slash splits the two sides independently. */
  lemma {:induction false} SplitConcat(a: string, b: string)
    ensures Split(a + "/" + b) == Split(a) + Split(b)
  {
    var s := a + "/" + b;
    if a == [] {
      assert s[0] == '/' && s[1..] == b;
    } else {
      assert s[0] == a[0] && s[1..] == a[1..] + "/" + b;
      SplitConcat(a[1..], b);
    }
  }

  /**
   * Normalisation of the segments of an absolute path, from the segments
   * resolved so far: empty and "." segments are dropped, ".." removes the
   * last segment and is ignored at the root.
   */
  function Resolve(stack: Path, segs: seq<string>): (p: Path)
    requires PlainPath(stack) && NoSlashes(segs)
    ensures PlainPath(p)
    decreases |segs|
  {
    if segs == [] then stack
    else
      var s := segs[0];
      if s == "" || s == "." then Resolve(stack, segs[1..])
      else if s == ".." then Resolve(if stack == [] then [] else stack[..|stack| - 1], segs[1..])
      else Resolve(stack + [s], segs[1..])
  }

  lemma {:induction false} ResolveAppend(stack: Path, a: seq<string>, b: seq<string>)
    requires PlainPath(stack) && NoSlashes(a) && NoSlashes(b)
    ensures NoSlashes(a + b)
    ensures Resolve(stack, a + b) == Resolve(Resolve(stack, a), b)
    decreases |a|
  {
    assert NoSlashes(a + b) by {
      forall k | 0 <= k < |a + b| ensures '/' !in (a + b)[k] {
        if k >= |a| {
          assert (a + b)[k] == b[k - |a|];
        }
      }
    }
    if a == [] {
      assert a + b == b;
    } else {
      assert (a + b)[0] == a[0] && (a + b)[1..] == a[1..] + b;
      var s := a[0];
      var next := if s == "" || s == "." then stack
                  else if s == ".." then (if stack == [] then [] else stack[..|stack| - 1])
                  else stack + [s];
      assert Resolve(stack, a + b) == Resolve(next, a[1..] + b);
      assert Resolve(stack, a) == Resolve(next, a[1..]);
      ResolveAppend(next, a[1..], b);
    }
  }

  /** Plain segments are appended unchanged. */
  lemma {:induction false} ResolvePlain(stack: Path, segs: seq<string>)
    requires PlainPath(stack) && PlainPath(segs)
    ensures Resolve(stack, segs) == stack + segs
    decreases |segs|
  {
    if segs != [] {
      ResolvePlain(stack + [segs[0]], segs[1..]);
      assert stack + [segs[0]] + segs[1..] == stack + segs;
    }
  }

  /** The string of an absolute path: "/a/b" for ["a", "b"] (the empty string for no segments). */
  function Render(p: Path): string
  {
    if p == [] then "" else "/" + (p[0] + Render(p[1..]))
  }

  lemma {:induction false} SplitAfter(a: string, p: Path)
    requires '/' !in a && PlainPath(p)
    ensures Split(a + Render(p)) == [a] + p
    decreases |p|
  {
    if p == [] {
      assert a + Render(p) == a;
      SplitNoSlash(a);
    } else {
      assert a + Render(p) == a + "/" + (p[0] + Render(p[1..]));
      SplitConcat(a, p[0] + Render(p[1..]));
      SplitNoSlash(a);
      SplitAfter(p[0], p[1..]);
    }
  }

  /** What `path.join` returns: the normalised segments and whether a trailing "/" is kept. */
  datatype Joined = Joined(segs: Path, trailing: bool)

  /** The string form of a joined absolute path: "/" alone for the root. */
  function PathString(j: Joined): string
  {
    if j.segs == [] then "/" else Render(j.segs) + (if j.trailing then "/" else "")
  }

  /** The segments of the directory's string followed by "/" and a name. */
  lemma JoinSegments(dir: Path, name: string)
    requires dir != [] && PlainPath(dir)
    ensures Resolve([], Split(Render(dir))) == dir
    ensures Resolve([], Split(Render(dir) + "/" + name)) == Resolve(dir, Split(name))
  {
    SplitAfter("", dir);
    assert "" + Render(dir) == Render(dir);
    assert Resolve([], [""] + dir) == Resolve([], dir) by {
      assert ([""] + dir)[0] == "" && ([""] + dir)[1..] == dir;
    }
    ResolvePlain([], dir);
    SplitConcat(Render(dir), name);
    ResolveAppend([], [""] + dir, Split(name));
  }

  /**
   * `path.join(dirString, name)` for the absolute directory `dir`: empty
   * arguments are skipped, the rest joined with "/" and normalised; a
   * trailing "/" of the joined string survives normalisation.
   */
  function Join(dir: Path, name: string): (j: Joined)
    requires dir != [] && PlainPath(dir)
    ensures PlainPath(j.segs)
    ensures name == "" ==> j == Joined(dir, false)
    ensures name != "" ==> j == Joined(Resolve(dir, Split(name)), name[|name| - 1] == '/')
  {
    var raw := if name == "" then Render(dir) else Render(dir) + "/" + name;
    JoinSegments(dir, name);
    RenderEnd(dir);
    assert name != "" ==> raw[|raw| - 1] == name[|name| - 1];
    Joined(Resolve([], Split(raw)), raw[|raw| - 1] == '/')
  }

  lemma {:induction false} RenderEnd(p: Path)
    requires p != [] && PlainPath(p)
    ensures |Render(p)| >= 2 && Render(p)[0] == '/'
    ensures Render(p)[|Render(p)| - 1] != '/'
    decreases |p|
  {
    if |p| > 1 {
      RenderEnd(p[1..]);
    }
  }

  /** The delete route's containment test: the joined path's string starts with the directory's string. */
  predicate PassesPrefixCheck(dir: Path, name: string)
    requires dir != [] && PlainPath(dir)
  {
    Render(dir) <= PathString(Join(dir, name))
  }

  /** Characters of a prefix agree with the sequence they start. */
  lemma PrefixIndex(u: string, v: string, i: nat)
    ensures u <= v && i < |u| ==> u[i] == v[i]
  {
  }

  /** Two slash-free words, each followed by nothing or by text that starts with a slash. */
  lemma SegmentPrefix(a: string, x: string, b: string, y: string)
    requires '/' !in a && '/' !in b
    requires x == [] || x[0] == '/'
    requires y == [] || y[0] == '/'
    ensures x == [] ==> (a + x <= b + y <==> a <= b)
    ensures x != [] ==> (a + x <= b + y <==> a == b && x <= y)
  {
    if a + x <= b + y {
      if |a| > |b| {
        PrefixIndex(a + x, b + y, |b|);
        assert false;
      }
      if x != [] && |a| < |b| {
        PrefixIndex(a + x, b + y, |a|);
        assert false;
      }
      assert a == (b + y)[..|a|];
      if x != [] {
        assert (a + x)[|a|..] == x;
      }
    }
    if x != [] && a == b && x <= y {
      assert a + x == (b + y)[..|a + x|];
    }
  }

  /**
   * `s` starts with all but the last segment of `d`, and its next segment
   * starts with, as a string, the last segment of `d`.
   */
  predicate ExtendsAsString(s: Path, d: Path)
    requires d != []
  {
    |s| >= |d| && s[..|d| - 1] == d[..|d| - 1] && d[|d| - 1] <= s[|d| - 1]
  }

  lemma ExtendsAsStringCons(s: Path, d: Path)
    requires |d| >= 2 && s != []
    ensures ExtendsAsString(s, d) <==> s[0] == d[0] && ExtendsAsString(s[1..], d[1..])
  {
    if |s| >= |d| {
      assert s[..|d| - 1] == [s[0]] + s[1..][..|d| - 2];
      assert d[..|d| - 1] == [d[0]] + d[1..][..|d| - 2];
    }
  }

  lemma SlashPrefix(a: string, b: string)
    ensures "/" + a <= "/" + b <==> a <= b
  {
    if a <= b {
      assert "/" + a == ("/" + b)[..|"/" + a|];
    }
    if "/" + a <= "/" + b {
      assert a == ("/" + b)[1..|"/" + a|];
    }
  }

  /**
   * What the string-prefix test means on segments: the joined path agrees
   * with the directory on all but its last segment, and its next segment
   * merely STARTS WITH the directory's last segment (so a sibling such as
   * "screenshotsX" passes).
   */
  lemma {:induction false} RenderPrefix(d: Path, s: Path, tail: string)
    requires d != [] && PlainPath(d) && PlainPath(s)
    requires tail == "" || tail == "/"
    ensures Render(d) <= Render(s) + tail <==> ExtendsAsString(s, d)
    decreases |d|
  {
    if s == [] {
      RenderEnd(d);
      assert Render(s) + tail == tail;
    } else {
      if |d| == 1 {
        RenderPrefixLast(d, s, tail);
      } else {
        RenderPrefixStep(d, s, tail);
        RenderPrefix(d[1..], s[1..], tail);
        ExtendsAsStringCons(s, d);
      }
    }
  }

  /** Both path strings with their leading "/" stripped; the joined side's rest starts with "/" or is empty. */
  lemma RenderPrefixHead(d: Path, s: Path, tail: string)
    requires d != [] && PlainPath(d) && s != [] && PlainPath(s)
    requires tail == "" || tail == "/"
    ensures Render(d) <= Render(s) + tail
            <==> d[0] + Render(d[1..]) <= s[0] + (Render(s[1..]) + tail)
    ensures Render(s[1..]) + tail == [] || (Render(s[1..]) + tail)[0] == '/'
  {
    var Y := Render(s[1..]) + tail;
    var L, R := Render(d), Render(s) + tail;
    assert L == "/" + (d[0] + Render(d[1..]));
    assert R == "/" + (s[0] + Y);
    SlashPrefix(d[0] + Render(d[1..]), s[0] + Y);
    if s[1..] != [] { RenderEnd(s[1..]); }
  }

  /** The last segment of the directory: the check only asks that it starts the next segment. */
  lemma RenderPrefixLast(d: Path, s: Path, tail: string)
    requires |d| == 1 && PlainPath(d) && s != [] && PlainPath(s)
    requires tail == "" || tail == "/"
    ensures Render(d) <= Render(s) + tail <==> d[0] <= s[0]
  {
    RenderPrefixHead(d, s, tail);
    assert d[0] + Render(d[1..]) == d[0];
    SegmentPrefix(d[0], [], s[0], Render(s[1..]) + tail);
  }

  /** An inner segment of the directory: it must equal the next segment. */
  lemma RenderPrefixStep(d: Path, s: Path, tail: string)
    requires |d| >= 2 && PlainPath(d) && s != [] && PlainPath(s)
    requires tail == "" || tail == "/"
    ensures Render(d) <= Render(s) + tail
            <==> d[0] == s[0] && Render(d[1..]) <= Render(s[1..]) + tail
  {
    RenderPrefixHead(d, s, tail);
    RenderEnd(d[1..]);
    SegmentPrefix(d[0], Render(d[1..]), s[0], Render(s[1..]) + tail);
  }

  /** The delete route's check, restated on the segments of the joined path. */
  lemma PrefixCheckMeaning(dir: Path, name: string)
    requires dir != [] && PlainPath(dir)
    ensures PassesPrefixCheck(dir, name) <==> ExtendsAsString(Join(dir, name).segs, dir)
  {
    var j := Join(dir, name);
    if j.segs == [] {
      RenderPrefix(dir, [], "/");
      assert PathString(j) == Render([]) + "/";
    } else {
      RenderPrefix(dir, j.segs, if j.trailing then "/" else "");
    }
  }

  /** A plain file name joins to the directory plus that one segment, and passes the check. */
  lemma PlainNameStaysInside(dir: Path, name: string)
    requires dir != [] && PlainPath(dir)
    requires PlainSegment(name)
    ensures Join(dir, name) == Joined(dir + [name], false)
    ensures PassesPrefixCheck(dir, name)
  {
    SplitNoSlash(name);
    ResolvePlain(dir, [name]);
    PrefixCheckMeaning(dir, name);
    assert (dir + [name])[..|dir| - 1] == dir[..|dir| - 1];
  }

  /** The screenshots directory, `path.join(__dirname, "public", "screenshots")`. */
  function ScreenshotsDir(root: Path): (dir: Path)
    requires PlainPath(root)
    ensures dir != [] && PlainPath(dir)
    ensures dir[|dir| - 1] == "screenshots"
  {
    root + ["public", "screenshots"]
  }

  /** Two upward steps, then two plain segments: "../../" + x + "/" + y, such as "../../etc/passwd". */
  lemma SplitClimbTwice(x: string, y: string)
    requires PlainSegment(x) && PlainSegment(y)
    ensures Split(".." + "/" + (".." + "/" + (x + "/" + y))) == ["..", "..", x, y]
  {
    SplitConcat("..", ".." + "/" + (x + "/" + y));
    SplitConcat("..", x + "/" + y);
    SplitConcat(x, y);
    SplitNoSlash("..");
    SplitNoSlash(x);
    SplitNoSlash(y);
  }

  /**
   * A name that climbs two levels, such as "../../etc/passwd", leaves the
   * screenshots directory and is refused, unless it climbs back into
   * "public" ("../../public/...").
   */
  lemma TraversalIsRefused(root: Path, x: string, y: string)
    requires PlainPath(root) && PlainSegment(x) && PlainSegment(y)
    requires x != "public"
    ensures Join(ScreenshotsDir(root), ".." + "/" + (".." + "/" + (x + "/" + y))).segs == root + [x, y]
    ensures !PassesPrefixCheck(ScreenshotsDir(root), ".." + "/" + (".." + "/" + (x + "/" + y)))
  {
    var dir := ScreenshotsDir(root);
    var name := ".." + "/" + (".." + "/" + (x + "/" + y));
    SplitClimbTwice(x, y);
    var segs := ["..", "..", x, y];
    assert Resolve(dir, segs) == Resolve(root + ["public"], segs[1..]) by {
      assert dir[..|dir| - 1] == root + ["public"];
    }
    assert Resolve(root + ["public"], segs[1..]) == Resolve(root, segs[2..]) by {
      assert (root + ["public"])[..|root|] == root;
    }
    ResolvePlain(root, segs[2..]);
    assert name[|name| - 1] == y[|y| - 1];
    PrefixCheckMeaning(dir, name);
    var s := root + [x, y];
    assert s[..|dir| - 1][|root|] == x;
    assert dir[..|dir| - 1][|root|] == "public";
  }

  /**
   * A sibling of the directory whose name extends the directory's own name
   * ("../screenshotsX/a.png") passes the string test although the file lies
   * outside the directory.
   */
  lemma SiblingPassesCheck(dir: Path, suffix: string, file: string)
    requires dir != [] && PlainPath(dir) && PlainSegment(file)
    requires suffix != "" && '/' !in suffix
    ensures var name := ".." + "/" + ((dir[|dir| - 1] + suffix) + "/" + file);
      && Join(dir, name).segs == dir[..|dir| - 1] + [dir[|dir| - 1] + suffix, file]
      && PassesPrefixCheck(dir, name)
      && !(dir <= Join(dir, name).segs)
  {
    var parent, last := dir[..|dir| - 1], dir[|dir| - 1];
    var sibling := last + suffix;
    var rest := sibling + "/" + file;
    var name := ".." + "/" + rest;
    assert PlainSegment(sibling) by {
      assert |sibling| > |last|;
      assert sibling[..|last|] == last;
    }
    var segs := SplitClimbOnce(sibling, file);
    ResolvePlain(parent, [sibling, file]);
    assert Resolve(dir, segs) == Resolve(parent, [sibling, file]);
    var s := parent + [sibling, file];
    assert name[|name| - 1] == file[|file| - 1];
    PrefixCheckMeaning(dir, name);
    assert s[..|dir| - 1] == parent;
    assert s[|dir| - 1] == sibling && last <= sibling;
    assert last != sibling;
    assert dir[|dir| - 1] != s[|dir| - 1];
  }

  /** One upward step, then two plain segments: "../" + x + "/" + y. */
  lemma SplitClimbOnce(x: string, y: string) returns (segs: seq<string>)
    requires PlainSegment(x) && PlainSegment(y)
    ensures segs == ["..", x, y]
    ensures Split(".." + "/" + (x + "/" + y)) == segs
  {
    SplitConcat("..", x + "/" + y);
    SplitConcat(x, y);
    SplitNoSlash("..");
    SplitNoSlash(x);
    SplitNoSlash(y);
    segs := ["..", x, y];
  }

  /**
   * `path.join` does not restart at an absolute name: "/" + x + "/" + y,
   * such as "/etc/passwd", lands inside the directory and passes the check.
   */
  lemma AbsoluteNameLandsInside(root: Path, x: string, y: string)
    requires PlainPath(root) && PlainSegment(x) && PlainSegment(y)
    ensures Join(ScreenshotsDir(root), "/" + (x + "/" + y)).segs == ScreenshotsDir(root) + [x, y]
    ensures PassesPrefixCheck(ScreenshotsDir(root), "/" + (x + "/" + y))
  {
    var dir := ScreenshotsDir(root);
    var rest := x + "/" + y;
    var name := "/" + rest;
    SplitConcat(x, y);
    SplitNoSlash(x);
    SplitNoSlash(y);
    SplitLeadingSlash(rest);
    ResolvePlain(dir, [x, y]);
    assert Resolve(dir, Split(name)) == dir + [x, y];
    assert name[|name| - 1] == y[|y| - 1];
    PrefixCheckMeaning(dir, name);
    var s := dir + [x, y];
    assert s[..|dir| - 1] == dir[..|dir| - 1];
  }

  /** A leading slash contributes one empty segment, which normalisation drops. */
  lemma SplitLeadingSlash(r: string)
    ensures Split("/" + r) == [""] + Split(r)
    ensures forall dir: Path {:trigger Resolve(dir, [""] + Split(r))} :: PlainPath(dir) ==>
      Resolve(dir, [""] + Split(r)) == Resolve(dir, Split(r))
  {
    var s := "/" + r;
    assert s[0] == '/' && s[1..] == r;
    forall dir: Path | PlainPath(dir) ensures Resolve(dir, [""] + Split(r)) == Resolve(dir, Split(r)) {
      assert ([""] + Split(r))[1..] == Split(r);
    }
  }

  /** `s` with its trailing slashes removed. */
  function TrimTrailingSlashes(s: string): (t: string)
    ensures t <= s
    ensures t == [] || t[|t| - 1] != '/'
    ensures forall i :: |t| <= i < |s| ==> s[i] == '/'
  {
    if s == [] || s[|s| - 1] != '/' then s else TrimTrailingSlashes(s[..|s| - 1])
  }

  /** The index of the last `c` in `s`, or -1. */
  function LastIndexOf(s: string, c: char): (k: int)
    ensures -1 <= k < |s|
    ensures k >= 0 ==> s[k] == c
    ensures forall i :: k < i < |s| ==> s[i] != c
  {
    if s == [] then -1
    else if s[|s| - 1] == c then |s| - 1
    else LastIndexOf(s[..|s| - 1], c)
  }

  /** `path.basename(p)`: the last segment, trailing slashes ignored. */
  function BaseName(p: string): (b: string)
    ensures '/' !in b
  {
    var t := TrimTrailingSlashes(p);
    t[LastIndexOf(t, '/') + 1..]
  }

  /**
   * `path.extname(p)`: the base name from its last "." on, or "" when the
   * base name has no ".", starts with its only leading ".", or is "..".
   */
  function ExtName(p: string): (e: string)
    ensures e == [] || (e[0] == '.' && forall i :: 1 <= i < |e| ==> e[i] != '.' && e[i] != '/')
    ensures |e| < |BaseName(p)| || e == []
    ensures e == BaseName(p)[|BaseName(p)| - |e|..]
  {
    var b := BaseName(p);
    var k := LastIndexOf(b, '.');
    if k <= 0 || b == ".." then "" else b[k..]
  }

  /** A name with a stem and a dotted suffix has that suffix as its extension. */
  lemma ExtNameOfDotted(stem: string, ext: string)
    requires stem != [] && '/' !in stem
    requires '.' !in ext && '/' !in ext
    requires !(stem == "." && ext == [])
    ensures ExtName(stem + "." + ext) == "." + ext
  {
    var dotExt := "." + ext;
    var p := stem + dotExt;
    assert p == stem + "." + ext;
    assert forall i :: 0 <= i < |p| ==> p[i] != '/' by {
      forall i | 0 <= i < |p| ensures p[i] != '/' {
        if i >= |stem| { assert p[i] == dotExt[i - |stem|]; }
      }
    }
    assert p[|stem|] == '.';
    forall i | |stem| < i < |p| ensures p[i] != '.' {
      assert p[i] == ext[i - |stem| - 1];
    }
    var j := LastIndexOf(p, '.');
    assert j == |stem|;
    assert p[|stem|..] == dotExt;
    if |p| == 2 {
      assert |stem| == 1 && ext == [];
      assert stem == [p[0]];
    }
    ExtNameOfSlashFree(p, j);
  }

  /** For a slash-free name, the extension starts at its last interior dot. */
  lemma ExtNameOfSlashFree(p: string, j: int)
    requires forall i :: 0 <= i < |p| ==> p[i] != '/'
    requires 0 < j < |p| && j == LastIndexOf(p, '.')
    requires |p| != 2 || p[0] != '.'
    ensures ExtName(p) == p[j..]
  {
    assert TrimTrailingSlashes(p) == p;
    assert LastIndexOf(p, '/') == -1;
    assert BaseName(p) == p;
    if |p| == 2 {
      assert p[0] != ".."[0];
    }
  }

  /** A name without a dot has no extension. */
  lemma ExtNameNoDot(p: string)
    requires '.' !in p
    ensures ExtName(p) == ""
  {
    var t := TrimTrailingSlashes(p);
    var b := BaseName(p);
    assert b == t[LastIndexOf(t, '/') + 1..];
    forall i | 0 <= i < |b| ensures b[i] != '.' {
      assert b[i] == p[LastIndexOf(t, '/') + 1 + i];
    }
    assert LastIndexOf(b, '.') == -1;
  }
}
