/**
 * The POSIX path operations the compile server uses: `path.basename`
 * (for the submitted file name) and `path.join` of a relative base with
 * one directory-entry name (for artifact keys), together with splitting
 * a relative path back into its names.
 */
module PosixPath {

  predicate NoSlash(s: string) {
    forall i :: 0 <= i < |s| ==> s[i] != '/'
  }

  predicate AllSlashes(s: string) {
    forall i :: 0 <= i < |s| ==> s[i] == '/'
  }

  /** `s` without its trailing run of `/` characters. */
  function StripTrailingSlashes(s: string): (r: string)
    ensures |r| <= |s| && r == s[..|r|]
    ensures AllSlashes(s[|r|..])
    ensures r == [] || r[|r| - 1] != '/'
  {
    if s != [] && s[|s| - 1] == '/' then
      var r := StripTrailingSlashes(s[..|s| - 1]);
      assert s[..|s| - 1][|r|..] == s[|r|..|s| - 1];
      assert s[|r|..] == s[|r|..|s| - 1] + ['/'];
      r
    else s
  }

  /** The text of `t` after its last `/` (all of `t` when it has none). */
  function LastSegment(t: string): (r: string)
    ensures |r| <= |t| && r == t[|t| - |r|..]
    ensures NoSlash(r)
    ensures |r| == |t| || t[|t| - |r| - 1] == '/'
  {
    if t == [] || t[|t| - 1] == '/' then []
    else
      var r := LastSegment(t[..|t| - 1]);
      assert t[..|t| - 1][|t| - 1 - |r|..] == t[|t| - 1 - |r|..|t| - 1];
      r + [t[|t| - 1]]
  }

  /**
   * `path.basename(s)` with Node's POSIX semantics: trailing slashes are
   * ignored and the last component is returned. Nothing here rejects
   * `".."` or `"."`; `""`, `"/"` and `"///"` all give `""`.
   */
  function Basename(s: string): string {
    LastSegment(StripTrailingSlashes(s))
  }

  /** `r` is a suffix of `t` free of `/` and preceded by `/` or the start of `t`. */
  predicate IsLastSegment(t: string, r: string) {
    |r| <= |t| && r == t[|t| - |r|..] && NoSlash(r) && (|r| == |t| || t[|t| - |r| - 1] == '/')
  }

  /** At most one suffix of `t` is free of `/` and preceded by `/` or the start. */
  lemma SlashFreeSuffixUnique(t: string, r1: string, r2: string)
    requires IsLastSegment(t, r1) && IsLastSegment(t, r2) && |r1| <= |r2|
    ensures r1 == r2
  {
  }

  /** The three properties of `LastSegment` determine it. */
  lemma LastSegmentUnique(t: string, r: string)
    requires IsLastSegment(t, r)
    ensures r == LastSegment(t)
  {
    var s := LastSegment(t);
    assert IsLastSegment(t, s);
    if |r| <= |s| {
      SlashFreeSuffixUnique(t, r, s);
    } else {
      SlashFreeSuffixUnique(t, s, r);
    }
  }

  /** `r` is the piece of `s` at `j` that is followed only by slashes and preceded by a slash or the start. */
  predicate LastComponentAt(s: string, r: string, j: nat) {
    j + |r| <= |s| && s[j..j + |r|] == r && AllSlashes(s[j + |r|..]) && (j == 0 || s[j - 1] == '/')
  }

  /**
   * What `path.basename` returns, stated without reference to how it is
   * computed: a piece of `s` free of `/`, followed in `s` only by slashes,
   * and preceded by a slash or the start of `s`; it is empty exactly when
   * `s` consists of slashes only.
   */
  lemma BasenameIsLastComponent(s: string)
    ensures NoSlash(Basename(s))
    ensures Basename(s) == [] <==> AllSlashes(s)
    ensures exists j: nat :: LastComponentAt(s, Basename(s), j)
  {
    var t := StripTrailingSlashes(s);
    var r := Basename(s);
    var j := |t| - |r|;
    assert s[j..j + |r|] == t[j..] == r;
    assert s[j + |r|..] == s[|t|..];
    if j > 0 {
      assert s[j - 1] == t[j - 1];
    }
    assert LastComponentAt(s, r, j);
    if r == [] {
      assert s[|t|..] == s;
    } else {
      assert s[j] == r[0] != '/';
    }
  }

  /** Two non-empty slash-free pieces that are each followed only by slashes end at the same place. */
  lemma LastComponentEndsAgree(s: string, a: string, i: nat, b: string, j: nat)
    requires LastComponentAt(s, a, i) && a != [] && NoSlash(a)
    requires LastComponentAt(s, b, j) && b != [] && NoSlash(b)
    ensures i + |a| <= j + |b|
  {
    assert s[i + |a| - 1] == a[|a| - 1];
  }

  /** Two non-empty slash-free pieces ending at the same place and preceded by `/` or the start begin at the same place. */
  lemma LastComponentStartsAgree(s: string, a: string, i: nat, b: string, j: nat)
    requires LastComponentAt(s, a, i) && a != [] && NoSlash(a)
    requires LastComponentAt(s, b, j) && b != [] && NoSlash(b)
    requires i + |a| == j + |b|
    ensures i <= j
  {
    assert i < j ==> s[j - 1] == a[j - 1 - i];
  }

  /** A non-empty last component is unique: at most one slash-free piece of `s` has that shape. */
  lemma LastComponentUnique(s: string, a: string, i: nat, b: string, j: nat)
    requires LastComponentAt(s, a, i) && a != [] && NoSlash(a)
    requires LastComponentAt(s, b, j) && b != [] && NoSlash(b)
    ensures a == b && i == j
  {
    LastComponentEndsAgree(s, a, i, b, j);
    LastComponentEndsAgree(s, b, j, a, i);
    LastComponentStartsAgree(s, a, i, b, j);
    LastComponentStartsAgree(s, b, j, a, i);
  }

  /** A name with path components is reduced to its last one. */
  lemma BasenameDropsDirectories(dirs: string, name: string)
    requires NoSlash(name) && name != []
    ensures Basename(dirs + "/" + name) == name
  {
    var s := dirs + "/" + name;
    assert StripTrailingSlashes(s) == s;
    LastSegmentUnique(s, name);
  }

  /** The names `".."` and `"."` pass through unchanged. */
  lemma BasenameKeepsDotNames()
    ensures Basename("..") == ".."
    ensures Basename(".") == "."
  {
    assert StripTrailingSlashes("..") == "..";
    LastSegmentUnique("..", "..");
    assert StripTrailingSlashes(".") == ".";
    LastSegmentUnique(".", ".");
  }

  /** A path that climbs out of its directory is reduced to its last name. */
  lemma BasenameOfTraversal()
    ensures Basename("../../etc/passwd") == "passwd"
  {
    assert "../../etc" + "/" + "passwd" == "../../etc/passwd";
    BasenameDropsDirectories("../../etc", "passwd");
  }

  /**
   * `rel = base ? path.join(base, name) : name`. For the names a
   * directory listing yields (non-empty, without `/`, neither `.` nor
   * `..`) and a base built the same way, `path.join`'s normalisation
   * changes nothing, so the join is a plain concatenation with `/`.
   */
  function JoinRelative(base: string, name: string): string {
    if base == "" then name else base + "/" + name
  }

  /** The names of `segs` separated by `/`. */
  function JoinPath(segs: seq<string>): string {
    if |segs| == 0 then ""
    else if |segs| == 1 then segs[0]
    else segs[0] + "/" + JoinPath(segs[1..])
  }

  function FirstSlash(s: string): (i: nat)
    requires !NoSlash(s)
    ensures i < |s| && s[i] == '/' && NoSlash(s[..i])
  {
    if s[0] == '/' then 0
    else
      assert !NoSlash(s[1..]) by {
        var k :| 0 <= k < |s| && s[k] == '/';
        assert s[1..][k - 1] == '/';
      }
      var i := FirstSlash(s[1..]);
      assert s[..i + 1] == [s[0]] + s[1..][..i];
      i + 1
  }

  /** Splits a relative path at every `/`. */
  function SplitPath(s: string): (segs: seq<string>)
    ensures |segs| >= 1
    decreases |s|
  {
    if NoSlash(s) then [s]
    else
      var i := FirstSlash(s);
      [s[..i]] + SplitPath(s[i + 1..])
  }

  /** Splitting undoes joining, for one or more names that contain no `/`. */
  lemma {:induction false} SplitJoin(segs: seq<string>)
    requires |segs| >= 1
    requires forall k :: 0 <= k < |segs| ==> NoSlash(segs[k])
    ensures SplitPath(JoinPath(segs)) == segs
  {
    if |segs| > 1 {
      var rest := JoinPath(segs[1..]);
      var s := segs[0] + "/" + rest;
      assert s[|segs[0]|] == '/';
      assert !NoSlash(s);
      var i := FirstSlash(s);
      assert forall k :: 0 <= k < |segs[0]| ==> s[k] == segs[0][k];
      assert forall k :: |segs[0]| < k <= |s| ==> s[..k][|segs[0]|] == '/';
      assert s[..i] == segs[0];
      assert s[i + 1..] == rest;
      SplitJoin(segs[1..]);
    }
  }

  /** Different lists of names give different paths. */
  lemma JoinPathInjective(a: seq<string>, b: seq<string>)
    requires |a| >= 1 && forall k :: 0 <= k < |a| ==> NoSlash(a[k])
    requires |b| >= 1 && forall k :: 0 <= k < |b| ==> NoSlash(b[k])
    ensures JoinPath(a) == JoinPath(b) ==> a == b
  {
    SplitJoin(a);
    SplitJoin(b);
  }

  /** A joined path without `/` is made of one name. */
  lemma SlashFreeJoinIsOneName(segs: seq<string>)
    requires |segs| >= 1
    ensures NoSlash(JoinPath(segs)) ==> |segs| == 1
  {
    if |segs| > 1 {
      assert JoinPath(segs)[|segs[0]|] == '/';
    }
  }

  /** Joining a name in front of one or more names. */
  lemma JoinPathCons(name: string, rest: seq<string>)
    requires |rest| >= 1
    ensures JoinPath([name] + rest) == name + "/" + JoinPath(rest)
  {
    assert ([name] + rest)[1..] == rest;
  }

  /** Joining a base with a name and then with a further path is joining the base with the longer path. */
  lemma JoinRelativeThenPath(base: string, name: string, p: string)
    requires name != ""
    ensures JoinRelative(JoinRelative(base, name), p) == JoinRelative(base, name + "/" + p)
  {
    if base != "" {
      assert (base + "/" + name) + "/" + p == base + "/" + (name + "/" + p);
    }
  }
}
