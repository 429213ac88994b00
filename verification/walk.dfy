/** The tree walker: a depth-first, pre-order enumeration of the files under
    a root directory, filtered by extension, over an abstract filesystem. */
module Walk {
  import opened Base
  import opened Args

  /** What a path resolves to. A file carries its extension (`None` when the
      name has none); a directory carries whether it can be listed and, if so,
      its entries in listing order. */
  datatype Node =
    | File(ext: Option<string>)
    | Dir(readable: bool, entries: seq<Entry>)

  /** One item of a directory listing: a named node, or an item the listing
      failed to produce. */
  datatype Entry =
    | Entry(name: string, node: Node)
    | Broken

  /** The inclusion test for a non-directory entry: it needs an extension,
      and that extension is listed in the filter or the filter is empty. */
  function Matches(filter: seq<string>, ext: Option<string>): (m: bool)
    ensures m ==> ext.Some?
    ensures ext.Some? && |filter| == 0 ==> m
    ensures forall j :: 0 <= j < |filter| && ext == Some(filter[j]) ==> m
    ensures m && |filter| > 0 ==> exists j :: 0 <= j < |filter| && ext == Some(filter[j])
  {
    ext.Some? && (ext.value in filter || |filter| == 0)
  }

  /** Visits the directory at `dir`, whose contents are `n`, appending every
      matching file beneath it to `files`. A node that is not a directory
      contributes nothing. */
  function VisitDirectory(dir: Path, n: Node, filter: seq<string>, files: seq<Path>): (r: Result<seq<Path>>)
    ensures r.Ok? ==> files <= r.value
    ensures r.Ok? ==> forall i :: |files| <= i < |r.value| ==>
                        |dir| < |r.value[i]| && r.value[i][..|dir|] == dir
    decreases n
  {
    match n
    case File(_) => Ok(files)
    case Dir(readable, entries) =>
      if !readable then Err(UnreadableDir(dir))
      else VisitEntries(dir, entries, filter, files)
  }

  /** Visits the listing `es` of the directory at `dir` in order; the first
      failing entry ends the walk. */
  function VisitEntries(dir: Path, es: seq<Entry>, filter: seq<string>, files: seq<Path>): (r: Result<seq<Path>>)
    ensures r.Ok? ==> files <= r.value
    ensures r.Ok? ==> forall i :: |files| <= i < |r.value| ==>
                        |dir| < |r.value[i]| && r.value[i][..|dir|] == dir
    decreases es
  {
    if |es| == 0 then Ok(files)
    else
      match VisitEntry(dir, es[0], filter, files)
      case Err(e) => Err(e)
      case Ok(files') => VisitEntries(dir, es[1..], filter, files')
  }

  /** One item of the listing of `dir`: a failed item is an error, a
      directory is recursed into, and a matching file is appended. */
  function VisitEntry(dir: Path, e: Entry, filter: seq<string>, files: seq<Path>): (r: Result<seq<Path>>)
    ensures r.Ok? ==> files <= r.value
    ensures r.Ok? ==> forall i :: |files| <= i < |r.value| ==>
                        |dir| < |r.value[i]| && r.value[i][..|dir|] == dir
    decreases e
  {
    match e
    case Broken => Err(UnreadableEntry(dir))
    case Entry(name, node) =>
      var path := dir + [name];
      if node.Dir? then
        var r := VisitDirectory(path, node, filter, files);
        assert r.Ok? ==> forall i :: |files| <= i < |r.value| ==> r.value[i][..|dir|] == path[..|dir|];
        r
      else
        Ok(if Matches(filter, node.ext) then files + [path] else files)
  }

  /** The walk from the parsed arguments. `root` is what the directory
      argument resolves to, `None` when nothing exists there. */
  function GetFiles(args: Args, root: Option<Node>): (r: Result<seq<Path>>)
    ensures root.None? || root.value.File? ==> r == Ok([])
  {
    match root
    case None => Ok([])
    case Some(n) => VisitDirectory([args.directory], n, args.fileExt, [])
  }

  // ---------------------------------------------------------------------
  // Reference definitions: what the tree holds, independent of the walk.

  /** Every directory reachable from `n` can be listed and no listing has a
      failed entry. */
  ghost predicate Intact(n: Node)
    decreases n
  {
    match n
    case File(_) => true
    case Dir(readable, entries) => readable && EntriesIntact(entries)
  }

  ghost predicate EntriesIntact(es: seq<Entry>)
    decreases es
  {
    forall k :: 0 <= k < |es| ==> EntryIntact(es[k])
  }

  ghost predicate EntryIntact(e: Entry)
    decreases e
  {
    e.Entry? && Intact(e.node)
  }

  /** Following the names in `rel` from `n` reaches a file whose extension
      passes `filter`. */
  ghost predicate MatchingFileAt(n: Node, rel: seq<string>, filter: seq<string>)
    decreases n
  {
    match n
    case File(ext) => rel == [] && Matches(filter, ext)
    case Dir(_, entries) => MatchingEntryAt(entries, rel, filter)
  }

  /** Some entry of the listing `es` starts the path `rel` to a matching
      file. */
  ghost predicate MatchingEntryAt(es: seq<Entry>, rel: seq<string>, filter: seq<string>)
    decreases es
  {
    exists k :: 0 <= k < |es| && MatchingUnder(es[k], rel, filter)
  }

  /** `rel` starts with the name of `e` and continues to a matching file
      below it. */
  ghost predicate MatchingUnder(e: Entry, rel: seq<string>, filter: seq<string>)
    decreases e
  {
    e.Entry? && |rel| > 0 && e.name == rel[0] && MatchingFileAt(e.node, rel[1..], filter)
  }

  /** `r` with `files` placed in front of its paths; errors pass through. */
  function Prepend(files: seq<Path>, r: Result<seq<Path>>): (r': Result<seq<Path>>)
  {
    match r
    case Ok(v) => Ok(files + v)
    case Err(e) => Err(e)
  }

  // ---------------------------------------------------------------------
  // Properties of the walk.

  /** The walk succeeds exactly when every reachable directory can be listed
      and no listing yields a failed entry. */
  lemma {:induction false} VisitSucceedsIffIntact(dir: Path, n: Node, filter: seq<string>, files: seq<Path>)
    ensures VisitDirectory(dir, n, filter, files).Ok? <==> Intact(n)
    decreases n
  {
    match n
    case File(_) =>
    case Dir(readable, entries) =>
      if readable {
        EntriesSucceedIffIntact(dir, entries, filter, files);
      }
  }

  lemma {:induction false} EntriesSucceedIffIntact(dir: Path, es: seq<Entry>, filter: seq<string>, files: seq<Path>)
    ensures VisitEntries(dir, es, filter, files).Ok? <==> EntriesIntact(es)
    decreases es
  {
    if |es| > 0 {
      EntriesIntactCons(es);
      EntrySucceedsIffIntact(dir, es[0], filter, files);
      var step := VisitEntry(dir, es[0], filter, files);
      if step.Ok? {
        EntriesSucceedIffIntact(dir, es[1..], filter, step.value);
      }
    }
  }

  lemma {:induction false} EntrySucceedsIffIntact(dir: Path, e: Entry, filter: seq<string>, files: seq<Path>)
    ensures VisitEntry(dir, e, filter, files).Ok? <==> EntryIntact(e)
    decreases e
  {
    match e
    case Broken =>
    case Entry(name, node) =>
      if node.Dir? {
        VisitSucceedsIffIntact(dir + [name], node, filter, files);
      }
  }

  lemma EntriesIntactCons(es: seq<Entry>)
    requires |es| > 0
    ensures EntriesIntact(es) <==> EntryIntact(es[0]) && EntriesIntact(es[1..])
  {
    if EntryIntact(es[0]) && EntriesIntact(es[1..]) {
      forall k | 0 <= k < |es| ensures EntryIntact(es[k]) {
        if k > 0 { assert es[k] == es[1..][k - 1]; }
      }
    }
    if EntriesIntact(es) {
      forall k | 0 <= k < |es[1..]| ensures EntryIntact(es[1..][k]) {
        assert es[1..][k] == es[k + 1];
      }
    }
  }

  /** Soundness: every path the walk adds lies under `dir` and leads, through
      the tree, to a non-directory entry whose extension passes the filter. */
  lemma {:induction false} VisitSound(dir: Path, n: Node, filter: seq<string>, files: seq<Path>)
    ensures var r := VisitDirectory(dir, n, filter, files);
            r.Ok? ==> forall i :: |files| <= i < |r.value| ==>
                        MatchingFileAt(n, r.value[i][|dir|..], filter)
    decreases n
  {
    match n
    case File(_) =>
    case Dir(readable, entries) =>
      if readable {
        EntriesSound(dir, entries, filter, files);
      }
  }

  lemma {:induction false} EntriesSound(dir: Path, es: seq<Entry>, filter: seq<string>, files: seq<Path>)
    ensures var r := VisitEntries(dir, es, filter, files);
            r.Ok? ==> forall i :: |files| <= i < |r.value| ==>
                        MatchingEntryAt(es, r.value[i][|dir|..], filter)
    decreases es
  {
    var r := VisitEntries(dir, es, filter, files);
    if |es| > 0 && r.Ok? {
      var step := VisitEntry(dir, es[0], filter, files);
      var files' := step.value;
      EntrySound(dir, es[0], filter, files);
      EntriesSound(dir, es[1..], filter, files');
      forall i | |files| <= i < |r.value|
        ensures MatchingEntryAt(es, r.value[i][|dir|..], filter)
      {
        var rel := r.value[i][|dir|..];
        if i < |files'| {
          assert r.value[i] == files'[i];
          assert MatchingUnder(es[0], rel, filter);
        } else {
          var k :| 0 <= k < |es[1..]| && MatchingUnder(es[1..][k], rel, filter);
          assert es[k + 1] == es[1..][k];
        }
      }
    }
  }

  lemma {:induction false} EntrySound(dir: Path, e: Entry, filter: seq<string>, files: seq<Path>)
    ensures var r := VisitEntry(dir, e, filter, files);
            r.Ok? ==> forall i :: |files| <= i < |r.value| ==>
                        MatchingUnder(e, r.value[i][|dir|..], filter)
    decreases e
  {
    var r := VisitEntry(dir, e, filter, files);
    if r.Ok? {
      var name, node := e.name, e.node;
      var path := dir + [name];
      if node.Dir? {
        VisitSound(path, node, filter, files);
      }
      forall i | |files| <= i < |r.value|
        ensures MatchingUnder(e, r.value[i][|dir|..], filter)
      {
        var p := r.value[i];
        var rel := p[|dir|..];
        assert p[..|path|] == path;
        assert rel[0] == name;
        assert rel[1..] == p[|path|..];
        if !node.Dir? {
          assert p == path;
        }
      }
    }
  }

  /** Completeness: on a successful walk of a directory, every path in the
      tree that leads to a matching file is among the added paths. */
  lemma {:induction false} VisitComplete(dir: Path, n: Node, filter: seq<string>, files: seq<Path>, rel: seq<string>)
    requires VisitDirectory(dir, n, filter, files).Ok?
    requires n.Dir?
    requires MatchingFileAt(n, rel, filter)
    ensures dir + rel in VisitDirectory(dir, n, filter, files).value[|files|..]
    decreases n
  {
    EntriesComplete(dir, n.entries, filter, files, rel);
  }

  lemma {:induction false} EntriesComplete(dir: Path, es: seq<Entry>, filter: seq<string>, files: seq<Path>, rel: seq<string>)
    requires VisitEntries(dir, es, filter, files).Ok?
    requires MatchingEntryAt(es, rel, filter)
    ensures dir + rel in VisitEntries(dir, es, filter, files).value[|files|..]
    decreases es
  {
    var r := VisitEntries(dir, es, filter, files);
    var k :| 0 <= k < |es| && MatchingUnder(es[k], rel, filter);
    var files' := VisitEntry(dir, es[0], filter, files).value;
    assert r == VisitEntries(dir, es[1..], filter, files');
    if k == 0 {
      EntryComplete(dir, es[0], filter, files, rel);
      var j :| |files| <= j < |files'| && files'[j] == dir + rel;
      assert r.value[j] == dir + rel;
    } else {
      assert es[1..][k - 1] == es[k];
      EntriesComplete(dir, es[1..], filter, files', rel);
      var j :| |files'| <= j < |r.value| && r.value[j] == dir + rel;
      assert r.value[|files|..][j - |files|] == dir + rel;
    }
  }

  lemma {:induction false} EntryComplete(dir: Path, e: Entry, filter: seq<string>, files: seq<Path>, rel: seq<string>)
    requires VisitEntry(dir, e, filter, files).Ok?
    requires MatchingUnder(e, rel, filter)
    ensures exists j :: |files| <= j < |VisitEntry(dir, e, filter, files).value| &&
                        VisitEntry(dir, e, filter, files).value[j] == dir + rel
    decreases e
  {
    var r := VisitEntry(dir, e, filter, files);
    var path := dir + [e.name];
    assert dir + rel == path + rel[1..];
    if e.node.Dir? {
      VisitComplete(path, e.node, filter, files, rel[1..]);
      var x :| x in r.value[|files|..] && x == path + rel[1..];
      var j :| 0 <= j < |r.value[|files|..]| && r.value[|files|..][j] == x;
      assert r.value[|files| + j] == dir + rel;
    } else {
      assert rel[1..] == [];
      assert r.value[|files|] == dir + rel;
    }
  }

  /** Append-only: what `files` held before is a prefix afterwards, and the
      added paths do not depend on it. */
  lemma {:induction false} VisitFromAnyPrefix(dir: Path, n: Node, filter: seq<string>, files: seq<Path>)
    ensures VisitDirectory(dir, n, filter, files) == Prepend(files, VisitDirectory(dir, n, filter, []))
    decreases n
  {
    match n
    case File(_) =>
      assert files + [] == files;
    case Dir(readable, entries) =>
      if readable {
        EntriesFromAnyPrefix(dir, entries, filter, files);
      }
  }

  lemma {:induction false} EntriesFromAnyPrefix(dir: Path, es: seq<Entry>, filter: seq<string>, files: seq<Path>)
    ensures VisitEntries(dir, es, filter, files) == Prepend(files, VisitEntries(dir, es, filter, []))
    decreases es
  {
    if |es| == 0 {
      assert files + [] == files;
    } else {
      EntryFromAnyPrefix(dir, es[0], filter, files);
      var step := VisitEntry(dir, es[0], filter, []);
      if step.Ok? {
        EntriesFromAnyPrefix(dir, es[1..], filter, files + step.value);
        EntriesFromAnyPrefix(dir, es[1..], filter, step.value);
        PrependTwice(files, step.value, VisitEntries(dir, es[1..], filter, []));
      }
    }
  }

  lemma {:induction false} EntryFromAnyPrefix(dir: Path, e: Entry, filter: seq<string>, files: seq<Path>)
    ensures VisitEntry(dir, e, filter, files) == Prepend(files, VisitEntry(dir, e, filter, []))
    decreases e
  {
    match e
    case Broken =>
    case Entry(name, node) =>
      if node.Dir? {
        VisitFromAnyPrefix(dir + [name], node, filter, files);
      } else {
        assert files + [] == files;
        assert [] + [dir + [name]] == [dir + [name]];
      }
  }

  lemma PrependTwice(a: seq<Path>, b: seq<Path>, r: Result<seq<Path>>)
    ensures Prepend(a + b, r) == Prepend(a, Prepend(b, r))
  {
    if r.Ok? {
      assert (a + b) + r.value == a + (b + r.value);
    }
  }

  /** Listing order: walking `es1 + es2` walks `es1` and then, from where it
      left off, `es2`; a failure in `es1` ends the walk. */
  lemma {:induction false} EntriesConcat(dir: Path, es1: seq<Entry>, es2: seq<Entry>, filter: seq<string>, files: seq<Path>)
    ensures VisitEntries(dir, es1 + es2, filter, files) ==
            match VisitEntries(dir, es1, filter, files)
            case Err(e) => Err(e)
            case Ok(files') => VisitEntries(dir, es2, filter, files')
  {
    if |es1| == 0 {
      assert es1 + es2 == es2;
    } else {
      var es := es1 + es2;
      assert es[0] == es1[0];
      assert es[1..] == es1[1..] + es2;
      var step := VisitEntry(dir, es1[0], filter, files);
      if step.Ok? {
        EntriesConcat(dir, es1[1..], es2, filter, step.value);
      }
    }
  }

  /** The walk from the arguments, in one statement: it fails exactly when a
      reachable directory or entry cannot be read; on success it lists only
      matching files under the root directory, and, when the root is a
      directory, every one of them. */
  lemma GetFilesCorrect(args: Args, root: Option<Node>)
    ensures var r := GetFiles(args, root);
            && (r.Ok? <==> root.None? || Intact(root.value))
            && (r.Ok? ==> forall i :: 0 <= i < |r.value| ==>
                            && |r.value[i]| > 1 && r.value[i][0] == args.directory
                            && root.Some? && MatchingFileAt(root.value, r.value[i][1..], args.fileExt))
            && (r.Ok? && root.Some? && root.value.Dir? ==>
                  forall rel :: MatchingFileAt(root.value, rel, args.fileExt) ==>
                                  [args.directory] + rel in r.value)
  {
    if root.Some? {
      var n := root.value;
      var dir := [args.directory];
      VisitSucceedsIffIntact(dir, n, args.fileExt, []);
      VisitSound(dir, n, args.fileExt, []);
      var r := GetFiles(args, root);
      if r.Ok? {
        forall i | 0 <= i < |r.value|
          ensures |r.value[i]| > 1 && r.value[i][0] == args.directory
        {
          assert r.value[i][..1] == dir;
        }
      }
      if r.Ok? && n.Dir? {
        forall rel | MatchingFileAt(n, rel, args.fileExt)
          ensures dir + rel in r.value
        {
          VisitComplete(dir, n, args.fileExt, [], rel);
        }
      }
    }
  }

  /** A directory holding `a.rs`, `b.txt` and `sub/c.rs`, filtered on `rs`,
      yields `a.rs` and then `sub/c.rs`. */
  lemma RustFilesExample()
    ensures GetFiles(Args(".", ["rs"]),
                     Some(Dir(true, [Entry("a.rs", File(Some("rs"))),
                                     Entry("b.txt", File(Some("txt"))),
                                     Entry("sub", Dir(true, [Entry("c.rs", File(Some("rs")))]))])))
            == Ok([[".", "a.rs"], [".", "sub", "c.rs"]])
  {
    var filter := ["rs"];
    var sub := [Entry("c.rs", File(Some("rs")))];
    var es := [Entry("a.rs", File(Some("rs"))),
               Entry("b.txt", File(Some("txt"))),
               Entry("sub", Dir(true, sub))];
    var a: Path := [".", "a.rs"];
    var c: Path := [".", "sub", "c.rs"];
    assert Matches(filter, Some("rs"));
    assert !Matches(filter, Some("txt")) by { assert "txt" != "rs"; }
    assert sub[1..] == [] && es[1..][1..] == es[2..] && es[2..][1..] == [];
    assert [".", "sub"] + ["c.rs"] == c;
    assert ["."] + ["sub"] == [".", "sub"];
    assert ["."] + ["a.rs"] == a;
    assert [a] + [c] == [a, c] && [] + [a] == [a];
    assert VisitEntries([".", "sub"], [], filter, [a, c]) == Ok([a, c]);
    assert VisitEntries([".", "sub"], sub, filter, [a]) == Ok([a, c]);
    assert VisitDirectory([".", "sub"], Dir(true, sub), filter, [a]) == Ok([a, c]);
    assert VisitEntries(["."], [], filter, [a, c]) == Ok([a, c]);
    assert VisitEntries(["."], es[2..], filter, [a]) == Ok([a, c]);
    assert VisitEntries(["."], es[1..], filter, [a]) == Ok([a, c]);
    assert VisitEntries(["."], es, filter, []) == Ok([a, c]);
  }
}
