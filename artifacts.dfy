/**
 * Artifact collection (server.js, lines 76-95) and the suffix filter
 * (lines 190-196). The output directory is a tree of entries; reading a
 * regular file either succeeds as UTF-8 text or falls back to base64, and
 * which of the two happens is recorded on the file itself.
 */
module Artifacts {
  import opened Errors
  import opened Text
  import opened PosixPath

  datatype Encoding = Utf8 | Base64

  /** `{ encoding, data }` as stored in the result object. */
  datatype Artifact = Artifact(encoding: Encoding, data: string)

  /**
   * A directory entry. A regular file carries what reading it yields: its
   * text when `readFileSync(full, "utf8")` succeeds (`None` when it throws)
   * and its base64 rendering for the fallback read. `Other` stands for
   * every entry that is neither a directory nor a regular file (symbolic
   * links, sockets, FIFOs, devices).
   */
  datatype Node =
    | File(name: string, text: Option<string>, base64: string)
    | Directory(name: string, children: seq<Node>)
    | Other(name: string)

  /** Lines 85-89: the text when the UTF-8 read succeeds, otherwise the base64 rendering. */
  function Read(f: Node): Artifact
    requires f.File?
  {
    if f.text.Some? then Artifact(Utf8, f.text.value) else Artifact(Base64, f.base64)
  }

  /** A key and the artifact stored under it. */
  datatype Write = Write(key: string, artifact: Artifact)

  /** The stores `walk(curr, base)` performs into `out`, in order. */
  function Writes(nodes: seq<Node>, base: string): seq<Write>
    decreases nodes
  {
    if nodes == [] then [] else EntryWrites(nodes[0], base) + Writes(nodes[1..], base)
  }

  /** The stores one entry of `curr` contributes: a file is stored, a directory walked, anything else skipped. */
  function EntryWrites(n: Node, base: string): seq<Write>
    decreases n
  {
    var rel := JoinRelative(base, n.name);
    match n
    case File(_, _, _) => [Write(rel, Read(n))]
    case Directory(_, children) => Writes(children, rel)
    case Other(_) => []
  }

  /**
   * The one key a plain object does not store as its own property: assigning
   * to `__proto__` runs the setter inherited from `Object.prototype`, which
   * replaces the object's prototype, so `Object.entries` never lists it.
   */
  const ProtoKey := "__proto__"

  /** `out[w.key] = w.artifact` on a plain object: an own property, except under `__proto__`. */
  function Assign(out: map<string, Artifact>, w: Write): (r: map<string, Artifact>)
    ensures w.key != ProtoKey ==> r.Keys == out.Keys + {w.key} && r[w.key] == w.artifact
    ensures w.key == ProtoKey ==> r == out
    ensures forall key :: key in out && key != w.key ==> key in r && r[key] == out[key]
  {
    if w.key == ProtoKey then out else out[w.key := w.artifact]
  }

  /** `out[key] = artifact` for each write in turn. */
  function Store(out: map<string, Artifact>, ws: seq<Write>): map<string, Artifact>
    decreases |ws|
  {
    if ws == [] then out else Store(Assign(out, ws[0]), ws[1..])
  }

  lemma {:induction false} StoreAppend(out: map<string, Artifact>, a: seq<Write>, b: seq<Write>)
    ensures Store(out, a + b) == Store(Store(out, a), b)
    decreases |a|
  {
    if a == [] {
      assert a + b == b;
    } else {
      assert (a + b)[1..] == a[1..] + b;
      StoreAppend(Assign(out, a[0]), a[1..], b);
    }
  }

  /**
   * Lines 79-92: `walk(curr, base)` visits the entries in order, recurses
   * into directories with the extended relative path and stores every
   * regular file under its relative path; other entries are skipped. A
   * store under `__proto__` reaches the prototype setter instead.
   */
  method Walk(curr: seq<Node>, base: string, out: map<string, Artifact>) returns (result: map<string, Artifact>)
    ensures result == Store(out, Writes(curr, base))
    decreases curr
  {
    result := out;
    for i := 0 to |curr|
      invariant result == Store(out, Writes(curr[..i], base))
    {
      var ent := curr[i];
      var rel := JoinRelative(base, ent.name);
      ghost var before := result;
      WritesOfOne(ent, base);
      match ent {
        case Directory(_, children) =>
          result := Walk(children, rel, result);
        case File(_, text, b64) =>
          if rel == ProtoKey {
            // the inherited setter replaces the prototype; no own property is created
          } else if text.Some? {
            result := result[rel := Artifact(Utf8, text.value)];
          } else {
            result := result[rel := Artifact(Base64, b64)];
          }
          assert result == Store(before, [Write(rel, Read(ent))]);
        case Other(_) =>
          assert result == Store(before, []);
      }
      assert curr[..i + 1][1..] == curr[1..i + 1];
      WritesOfPrefix(curr, i, base);
      StoreAppend(out, Writes(curr[..i], base), Writes([curr[i]], base));
    }
    assert curr[..|curr|] == curr;
  }

  lemma WritesOfOne(n: Node, base: string)
    ensures Writes([n], base) == EntryWrites(n, base)
  {
    assert [n][1..] == [];
  }

  /** The writes of the first `i + 1` entries are those of the first `i` followed by those of entry `i`. */
  lemma {:induction false} WritesOfPrefix(nodes: seq<Node>, i: nat, base: string)
    requires i < |nodes|
    ensures Writes(nodes[..i + 1], base) == Writes(nodes[..i], base) + Writes([nodes[i]], base)
  {
    WritesAppend(nodes[..i], [nodes[i]], base);
    assert nodes[..i] + [nodes[i]] == nodes[..i + 1];
  }

  lemma {:induction false} WritesAppend(a: seq<Node>, b: seq<Node>, base: string)
    ensures Writes(a + b, base) == Writes(a, base) + Writes(b, base)
    decreases |a|
  {
    if a == [] {
      assert a + b == b;
    } else {
      assert (a + b)[0] == a[0];
      assert (a + b)[1..] == a[1..] + b;
      WritesAppend(a[1..], b, base);
      var w0, wa, wb := EntryWrites(a[0], base), Writes(a[1..], base), Writes(b, base);
      assert w0 + (wa + wb) == (w0 + wa) + wb;
    }
  }

  /** Lines 76-95: `{}` when the directory does not exist, otherwise the walk from the directory itself. */
  method ReadAllFilesRecursively(dir: Option<seq<Node>>) returns (out: map<string, Artifact>)
    ensures dir.None? ==> out == map[]
    ensures dir.Some? ==> out == Store(map[], Writes(dir.value, ""))
  {
    out := map[];
    if dir.None? {
      return;
    }
    out := Walk(dir.value, "", out);
  }

  // ---------------------------------------------------------------------
  // The tree's own view: its regular files with the names along the way
  // ---------------------------------------------------------------------

  /** A regular file and the names of the directories leading to it, ending with its own name. */
  datatype Located = Located(path: seq<string>, file: Node)

  function Under(name: string, ls: seq<Located>): (r: seq<Located>)
    ensures |r| == |ls|
    ensures forall k :: 0 <= k < |ls| ==> r[k] == Located([name] + ls[k].path, ls[k].file)
  {
    seq(|ls|, k requires 0 <= k < |ls| => Located([name] + ls[k].path, ls[k].file))
  }

  /** Every regular file below `nodes`, in the order of the walk. */
  function Files(nodes: seq<Node>): (r: seq<Located>)
    ensures forall k :: 0 <= k < |r| ==> r[k].file.File? && |r[k].path| >= 1
    decreases nodes
  {
    if nodes == [] then []
    else
      var n := nodes[0];
      var first :=
        match n
        case File(_, _, _) => [Located([n.name], n)]
        case Directory(_, children) => Under(n.name, Files(children))
        case Other(_) => [];
      first + Files(nodes[1..])
  }

  function Names(nodes: seq<Node>): set<string> {
    set k | 0 <= k < |nodes| :: nodes[k].name
  }

  /**
   * The listings the lemmas below describe: every name is non-empty, free
   * of `/` and neither `.` nor `..`, and no two entries of one directory
   * share a name. Names on disk are distinct, but a name that is not valid
   * UTF-8 is decoded lossily and may arrive equal to another.
   */
  predicate WellFormed(nodes: seq<Node>)
    decreases nodes
  {
    (forall k :: 0 <= k < |nodes| ==>
       nodes[k].name != "" && NoSlash(nodes[k].name) && nodes[k].name != "." && nodes[k].name != "..")
    && (forall j, k :: 0 <= j < k < |nodes| ==> nodes[j].name != nodes[k].name)
    && (forall k :: 0 <= k < |nodes| ==> nodes[k].Directory? ==> WellFormed(nodes[k].children))
  }

  lemma WellFormedTail(nodes: seq<Node>)
    requires WellFormed(nodes) && nodes != []
    ensures WellFormed(nodes[1..])
    ensures nodes[0].name !in Names(nodes[1..])
  {
    assert forall k :: 0 <= k < |nodes[1..]| ==> nodes[1..][k] == nodes[k + 1];
  }

  /** Every file path starts with the name of one of the entries. */
  lemma {:induction false} FilesStartWithEntryName(nodes: seq<Node>)
    ensures forall k :: 0 <= k < |Files(nodes)| ==> Files(nodes)[k].path[0] in Names(nodes)
    decreases nodes
  {
    if nodes != [] {
      FilesStartWithEntryName(nodes[1..]);
      var fs := Files(nodes);
      var n := nodes[0];
      var first := fs[..|fs| - |Files(nodes[1..])|];
      assert Names(nodes[1..]) <= Names(nodes) by {
        forall x | x in Names(nodes[1..]) ensures x in Names(nodes) {
          var k :| 0 <= k < |nodes[1..]| && nodes[1..][k].name == x;
          assert nodes[k + 1].name == x;
        }
      }
      assert n.name in Names(nodes) by {
        assert nodes[0].name == n.name;
      }
    }
  }

  /** The names along every file path are free of `/`. */
  predicate SlashFreePaths(ls: seq<Located>) {
    forall k, j :: 0 <= k < |ls| && 0 <= j < |ls[k].path| ==> NoSlash(ls[k].path[j])
  }

  predicate DistinctPaths(ls: seq<Located>) {
    forall j, k :: 0 <= j < k < |ls| ==> ls[j].path != ls[k].path
  }

  /** Prefixing one more name to distinct, slash-free paths keeps them distinct and slash-free. */
  lemma UnderKeepsPathsApart(name: string, ls: seq<Located>)
    requires NoSlash(name) && SlashFreePaths(ls) && DistinctPaths(ls)
    ensures SlashFreePaths(Under(name, ls)) && DistinctPaths(Under(name, ls))
  {
    var r := Under(name, ls);
    forall k, j | 0 <= k < |r| && 0 <= j < |r[k].path| ensures NoSlash(r[k].path[j]) {
      if j > 0 {
        assert r[k].path[j] == ls[k].path[j - 1];
      }
    }
    forall j, k | 0 <= j < k < |r| ensures r[j].path != r[k].path {
      assert r[j].path[1..] == ls[j].path;
      assert r[k].path[1..] == ls[k].path;
    }
  }

  /**
   * Two lists of distinct, slash-free paths stay distinct when joined, if
   * every path of the first starts with a name that no path of the second
   * starts with.
   */
  lemma ConcatKeepsPathsApart(first: seq<Located>, rest: seq<Located>, name: string, names: set<string>)
    requires SlashFreePaths(first) && DistinctPaths(first)
    requires SlashFreePaths(rest) && DistinctPaths(rest)
    requires forall k :: 0 <= k < |first| ==> |first[k].path| >= 1 && first[k].path[0] == name
    requires forall k :: 0 <= k < |rest| ==> |rest[k].path| >= 1 && rest[k].path[0] in names
    requires name !in names
    ensures SlashFreePaths(first + rest) && DistinctPaths(first + rest)
  {
    var all := first + rest;
    forall k, j | 0 <= k < |all| && 0 <= j < |all[k].path| ensures NoSlash(all[k].path[j]) {
      if k >= |first| {
        assert all[k] == rest[k - |first|];
      }
    }
    forall j, k | 0 <= j < k < |all| ensures all[j].path != all[k].path {
      if k >= |first| {
        assert all[k] == rest[k - |first|];
        if j >= |first| {
          assert all[j] == rest[j - |first|];
        }
      }
    }
  }

  /** In a well-formed tree every file has its own path, made of names without `/`. */
  lemma {:induction false} FilesDistinct(nodes: seq<Node>)
    requires WellFormed(nodes)
    ensures SlashFreePaths(Files(nodes)) && DistinctPaths(Files(nodes))
    decreases nodes
  {
    if nodes != [] {
      var n := nodes[0];
      WellFormedTail(nodes);
      FilesDistinct(nodes[1..]);
      FilesStartWithEntryName(nodes[1..]);
      var rest := Files(nodes[1..]);
      var first: seq<Located>;
      assert n.name != "" && NoSlash(n.name) by {
        assert nodes[0].name == n.name;
      }
      if n.Directory? {
        assert WellFormed(n.children) by {
          assert nodes[0].Directory?;
        }
        FilesDistinct(n.children);
        first := Under(n.name, Files(n.children));
        UnderKeepsPathsApart(n.name, Files(n.children));
      } else if n.File? {
        first := [Located([n.name], n)];
      } else {
        first := [];
      }
      assert Files(nodes) == first + rest;
      ConcatKeepsPathsApart(first, rest, n.name, Names(nodes[1..]));
    }
  }

  /** The write `w` stores the regular file `l` under `base` joined with its path, with what reading it yields. */
  predicate Stores(w: Write, l: Located, base: string) {
    l.file.File? && |l.path| >= 1 && w == Write(JoinRelative(base, JoinPath(l.path)), Read(l.file))
  }

  /** The writes `ws` store the files `ls`, in order. */
  predicate Follows(ws: seq<Write>, ls: seq<Located>, base: string) {
    |ws| == |ls| && forall k :: 0 <= k < |ls| ==> Stores(ws[k], ls[k], base)
  }

  lemma FollowsConcat(ws1: seq<Write>, ls1: seq<Located>, ws2: seq<Write>, ls2: seq<Located>, base: string)
    requires Follows(ws1, ls1, base) && Follows(ws2, ls2, base)
    ensures Follows(ws1 + ws2, ls1 + ls2, base)
  {
    var ws, ls := ws1 + ws2, ls1 + ls2;
    forall k | |ls1| <= k < |ls| ensures Stores(ws[k], ls[k], base) {
      assert ws[k] == ws2[k - |ls1|] && ls[k] == ls2[k - |ls1|];
    }
  }

  /** The writes of a directory walked under `base` follow its files with the directory's name in front. */
  lemma FollowsUnder(ws: seq<Write>, name: string, ls: seq<Located>, base: string)
    requires name != ""
    requires Follows(ws, ls, JoinRelative(base, name))
    ensures Follows(ws, Under(name, ls), base)
  {
    var r := Under(name, ls);
    forall k | 0 <= k < |r| ensures Stores(ws[k], r[k], base) {
      JoinPathCons(name, ls[k].path);
      JoinRelativeThenPath(base, name, JoinPath(ls[k].path));
    }
  }

  /**
   * Every store of the walk from the top is a regular file of the tree, in
   * order, keyed by the names along its path joined with `/`, with what
   * reading it yields.
   */
  lemma {:induction false} WritesFollowFiles(nodes: seq<Node>, base: string)
    requires WellFormed(nodes)
    ensures Follows(Writes(nodes, base), Files(nodes), base)
    decreases nodes
  {
    if nodes != [] {
      var n := nodes[0];
      WellFormedTail(nodes);
      WritesFollowFiles(nodes[1..], base);
      assert n.name != "" by {
        assert nodes[0].name == n.name;
      }
      var first: seq<Located>;
      if n.Directory? {
        assert WellFormed(n.children) by {
          assert nodes[0].Directory?;
        }
        WritesFollowFiles(n.children, JoinRelative(base, n.name));
        first := Under(n.name, Files(n.children));
        FollowsUnder(EntryWrites(n, base), n.name, Files(n.children), base);
      } else if n.File? {
        first := [Located([n.name], n)];
        assert JoinPath([n.name]) == n.name;
      } else {
        first := [];
      }
      assert Follows(EntryWrites(n, base), first, base);
      assert Files(nodes) == first + Files(nodes[1..]);
      FollowsConcat(EntryWrites(n, base), first, Writes(nodes[1..], base), Files(nodes[1..]), base);
    }
  }

  predicate DistinctKeys(ws: seq<Write>) {
    forall j, k :: 0 <= j < k < |ws| ==> ws[j].key != ws[k].key
  }

  function KeysOf(ws: seq<Write>): set<string> {
    set k | 0 <= k < |ws| :: ws[k].key
  }

  lemma KeysOfCons(ws: seq<Write>)
    requires ws != []
    ensures KeysOf(ws) == {ws[0].key} + KeysOf(ws[1..])
  {
    assert forall k :: 0 <= k < |ws[1..]| ==> ws[1..][k] == ws[k + 1];
    forall x | x in KeysOf(ws) ensures x in {ws[0].key} + KeysOf(ws[1..]) {
      var k :| 0 <= k < |ws| && ws[k].key == x;
      assert k == 0 || ws[1..][k - 1].key == x;
    }
  }

  /** The keys after storing are the keys before and the keys written, except `__proto__`. */
  lemma {:induction false} StoreKeys(out: map<string, Artifact>, ws: seq<Write>)
    ensures Store(out, ws).Keys == out.Keys + (KeysOf(ws) - {ProtoKey})
    decreases |ws|
  {
    if ws == [] {
      assert KeysOf(ws) == {};
    } else {
      KeysOfCons(ws);
      StoreKeys(Assign(out, ws[0]), ws[1..]);
    }
  }

  /** An entry no write touches keeps its value. */
  lemma {:induction false} StoreUntouched(out: map<string, Artifact>, ws: seq<Write>, key: string)
    requires key in out && key !in KeysOf(ws)
    ensures key in Store(out, ws) && Store(out, ws)[key] == out[key]
    decreases |ws|
  {
    if ws != [] {
      KeysOfCons(ws);
      StoreUntouched(Assign(out, ws[0]), ws[1..], key);
    }
  }

  /** With distinct keys, each entry other than `__proto__` holds the artifact of the one write to it. */
  lemma {:induction false} StoreValue(out: map<string, Artifact>, ws: seq<Write>, k: nat)
    requires DistinctKeys(ws) && k < |ws| && ws[k].key != ProtoKey
    ensures ws[k].key in Store(out, ws) && Store(out, ws)[ws[k].key] == ws[k].artifact
    decreases |ws|
  {
    var out' := Assign(out, ws[0]);
    assert DistinctKeys(ws[1..]);
    if k == 0 {
      assert ws[0].key !in KeysOf(ws[1..]);
      StoreUntouched(out', ws[1..], ws[0].key);
    } else {
      assert ws[1..][k - 1] == ws[k];
      StoreValue(out', ws[1..], k - 1);
    }
  }

  /** Distinct keys: as many keys as writes. */
  lemma {:induction false} KeysOfSize(ws: seq<Write>)
    requires DistinctKeys(ws)
    ensures |KeysOf(ws)| == |ws|
    decreases |ws|
  {
    if ws == [] {
      assert KeysOf(ws) == {};
    } else {
      KeysOfCons(ws);
      assert DistinctKeys(ws[1..]);
      KeysOfSize(ws[1..]);
      assert ws[0].key !in KeysOf(ws[1..]);
    }
  }

  /** From the top, each file is written under its joined path, and no two files share a key. */
  lemma TopLevelWrites(nodes: seq<Node>)
    requires WellFormed(nodes)
    ensures |Writes(nodes, "")| == |Files(nodes)|
    ensures forall k :: 0 <= k < |Files(nodes)| ==>
              Writes(nodes, "")[k] == Write(JoinPath(Files(nodes)[k].path), Read(Files(nodes)[k].file))
    ensures DistinctKeys(Writes(nodes, ""))
  {
    var fs := Files(nodes);
    var ws := Writes(nodes, "");
    WritesFollowFiles(nodes, "");
    FilesDistinct(nodes);
    forall j, k | 0 <= j < k < |ws| ensures ws[j].key != ws[k].key {
      JoinPathInjective(fs[j].path, fs[k].path);
    }
  }

  /** The `/`-joined paths of the regular files below `nodes`. */
  function FilePaths(nodes: seq<Node>): set<string> {
    set k | 0 <= k < |Files(nodes)| :: JoinPath(Files(nodes)[k].path)
  }

  /** From the top, the keys written are the file paths, one per file. */
  lemma TopLevelKeys(nodes: seq<Node>)
    requires WellFormed(nodes)
    ensures KeysOf(Writes(nodes, "")) == FilePaths(nodes)
    ensures |FilePaths(nodes)| == |Files(nodes)|
  {
    var ws := Writes(nodes, "");
    TopLevelWrites(nodes);
    KeysOfSize(ws);
    KeysArePaths(ws, Files(nodes));
  }

  /** Writes keyed one by one by the paths of `fs` have exactly those paths as keys. */
  lemma KeysArePaths(ws: seq<Write>, fs: seq<Located>)
    requires |ws| == |fs| && forall k :: 0 <= k < |fs| ==> ws[k].key == JoinPath(fs[k].path)
    ensures KeysOf(ws) == set k | 0 <= k < |fs| :: JoinPath(fs[k].path)
  {
    forall x | x in (set k | 0 <= k < |fs| :: JoinPath(fs[k].path)) ensures x in KeysOf(ws) {
      var k :| 0 <= k < |fs| && JoinPath(fs[k].path) == x;
      assert ws[k].key == x;
    }
  }

  /**
   * Lines 76-95 on a well-formed tree: the result holds one entry per
   * regular file, keyed by the `/`-joined names along its path and holding
   * what reading that file yields, except for the key `__proto__`, which
   * never becomes an own property; directories and other entries never
   * become entries.
   */
  lemma CollectedFiles(nodes: seq<Node>)
    requires WellFormed(nodes)
    ensures |FilePaths(nodes)| == |Files(nodes)|
    ensures Collected(Some(nodes)).Keys == FilePaths(nodes) - {ProtoKey}
    ensures forall k :: 0 <= k < |Files(nodes)| && JoinPath(Files(nodes)[k].path) != ProtoKey ==>
              JoinPath(Files(nodes)[k].path) in Collected(Some(nodes))
              && Collected(Some(nodes))[JoinPath(Files(nodes)[k].path)] == Read(Files(nodes)[k].file)
  {
    var fs := Files(nodes);
    var ws := Writes(nodes, "");
    var m := Store(map[], ws);
    assert Collected(Some(nodes)) == m;
    TopLevelWrites(nodes);
    TopLevelKeys(nodes);
    StoreKeys(map[], ws);
    forall k | 0 <= k < |fs| && JoinPath(fs[k].path) != ProtoKey
      ensures JoinPath(fs[k].path) in m && m[JoinPath(fs[k].path)] == Read(fs[k].file)
    {
      StoreValue(map[], ws, k);
    }
  }

  /**
   * A file's path has one name exactly when the file is an entry of the
   * top directory, and every top-level file has the path of its own name.
   */
  lemma {:induction false} FilePathShape(nodes: seq<Node>)
    ensures forall k :: 0 <= k < |Files(nodes)| && |Files(nodes)[k].path| == 1 ==>
              Files(nodes)[k].file in nodes && Files(nodes)[k].path[0] == Files(nodes)[k].file.name
    ensures forall i :: 0 <= i < |nodes| && nodes[i].File? ==>
              exists k :: 0 <= k < |Files(nodes)| && Files(nodes)[k].path == [nodes[i].name]
    decreases nodes
  {
    if nodes != [] {
      var n := nodes[0];
      var fs := Files(nodes);
      var rest := Files(nodes[1..]);
      FilePathShape(nodes[1..]);
      var first := fs[..|fs| - |rest|];
      assert fs == first + rest;
      forall k | 0 <= k < |fs| && |fs[k].path| == 1
        ensures fs[k].file in nodes && fs[k].path[0] == fs[k].file.name
      {
        if k >= |first| {
          assert fs[k] == rest[k - |first|];
          assert fs[k].file in nodes[1..];
        }
      }
      forall i | 0 <= i < |nodes| && nodes[i].File?
        ensures exists k :: 0 <= k < |fs| && fs[k].path == [nodes[i].name]
      {
        if i == 0 {
          assert fs[0].path == [n.name];
        } else {
          assert nodes[i] == nodes[1..][i - 1];
          var k :| 0 <= k < |rest| && rest[k].path == [nodes[1..][i - 1].name];
          assert fs[|first| + k] == rest[k];
        }
      }
    }
  }

  /**
   * Only a regular file named `__proto__` in the top directory has the key
   * `__proto__`: exactly when there is one, some file has that path, every
   * file with that path is an entry of the top directory, and no file
   * below a subdirectory has it.
   */
  lemma ProtoPathIsTopLevelFile(nodes: seq<Node>)
    ensures ProtoKey in FilePaths(nodes) <==> exists i :: 0 <= i < |nodes| && nodes[i].File? && nodes[i].name == ProtoKey
    ensures forall k :: 0 <= k < |Files(nodes)| && JoinPath(Files(nodes)[k].path) == ProtoKey ==>
              |Files(nodes)[k].path| == 1 && Files(nodes)[k].file in nodes && Files(nodes)[k].file.name == ProtoKey
    ensures forall k :: 0 <= k < |Files(nodes)| && |Files(nodes)[k].path| >= 2 ==>
              JoinPath(Files(nodes)[k].path) != ProtoKey
  {
    ProtoPathsAreTopLevel(nodes);
    if ProtoKey in FilePaths(nodes) {
      var k :| 0 <= k < |Files(nodes)| && JoinPath(Files(nodes)[k].path) == ProtoKey;
      var i :| 0 <= i < |nodes| && nodes[i] == Files(nodes)[k].file;
    }
    if exists i :: 0 <= i < |nodes| && nodes[i].File? && nodes[i].name == ProtoKey {
      var i :| 0 <= i < |nodes| && nodes[i].File? && nodes[i].name == ProtoKey;
      TopLevelFilePath(nodes, i);
    }
  }

  /** Every file whose path is `__proto__` sits in the top directory under that name. */
  lemma ProtoPathsAreTopLevel(nodes: seq<Node>)
    ensures forall k :: 0 <= k < |Files(nodes)| && JoinPath(Files(nodes)[k].path) == ProtoKey ==>
              |Files(nodes)[k].path| == 1 && Files(nodes)[k].file in nodes && Files(nodes)[k].file.name == ProtoKey
  {
    var fs := Files(nodes);
    FilePathShape(nodes);
    assert NoSlash(ProtoKey);
    forall k | 0 <= k < |fs| && JoinPath(fs[k].path) == ProtoKey
      ensures |fs[k].path| == 1 && fs[k].file in nodes && fs[k].file.name == ProtoKey
    {
      SlashFreeJoinIsOneName(fs[k].path);
    }
  }

  /** A regular file of the top directory has its own name as its path. */
  lemma TopLevelFilePath(nodes: seq<Node>, i: nat)
    requires i < |nodes| && nodes[i].File?
    ensures nodes[i].name in FilePaths(nodes)
  {
    var fs := Files(nodes);
    FilePathShape(nodes);
    var k :| 0 <= k < |fs| && fs[k].path == [nodes[i].name];
    assert JoinPath(fs[k].path) == nodes[i].name;
  }

  /** Directories and other entries never become entries: every key is the path of a regular file. */
  lemma CollectedKeysAreFilePaths(nodes: seq<Node>, key: string)
    requires WellFormed(nodes)
    requires key in Collected(Some(nodes))
    ensures exists k :: 0 <= k < |Files(nodes)| && key == JoinPath(Files(nodes)[k].path)
  {
    var ws := Writes(nodes, "");
    TopLevelWrites(nodes);
    StoreKeys(map[], ws);
    assert key in KeysOf(ws);
    var k :| 0 <= k < |ws| && ws[k].key == key;
    assert key == JoinPath(Files(nodes)[k].path);
  }

  /** The object `readAllFilesRecursively` returns, as a function of the directory. */
  function Collected(dir: Option<seq<Node>>): map<string, Artifact> {
    if dir.None? then map[] else Store(map[], Writes(dir.value, ""))
  }

  // ---------------------------------------------------------------------
  // The suffix filter
  // ---------------------------------------------------------------------

  const Arc32Suffix := ".arc32.json"
  const Arc4Suffix := ".arc4.json"

  /** Line 193. */
  predicate IsContractArtifact(key: string) {
    EndsWith(key, Arc32Suffix) || EndsWith(key, Arc4Suffix)
  }

  /** The entries the filter keeps. */
  function ContractArtifacts(all: map<string, Artifact>): map<string, Artifact> {
    map key | key in all && IsContractArtifact(key) :: all[key]
  }

  /**
   * Lines 191-196: copies into a fresh object the entries whose key ends
   * in `.arc32.json` or `.arc4.json`, with their values unchanged; nothing
   * else is copied.
   */
  method FilterArtifacts(all: map<string, Artifact>) returns (kept: map<string, Artifact>)
    ensures forall key :: key in kept <==> key in all && IsContractArtifact(key)
    ensures forall key :: key in kept ==> kept[key] == all[key]
    ensures kept == ContractArtifacts(all)
  {
    kept := map[];
    var remaining := all.Keys;
    while remaining != {}
      invariant remaining <= all.Keys
      invariant forall key :: key in kept <==> key in all && key !in remaining && IsContractArtifact(key)
      invariant forall key :: key in kept ==> kept[key] == all[key]
      decreases remaining
    {
      var key :| key in remaining;
      if EndsWith(key, Arc32Suffix) || EndsWith(key, Arc4Suffix) {
        kept := kept[key := all[key]];
      }
      remaining := remaining - {key};
    }
  }

  /** Filtering is idempotent, and its result is part of its input. */
  lemma FilterIdempotentAndShrinking(all: map<string, Artifact>)
    ensures ContractArtifacts(ContractArtifacts(all)) == ContractArtifacts(all)
    ensures ContractArtifacts(all).Keys <= all.Keys
    ensures forall key :: key in ContractArtifacts(all) ==> ContractArtifacts(all)[key] == all[key]
  {
  }
}
