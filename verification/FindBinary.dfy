/**
 * findBinary of npm/lib/bootstrap.js: a queue-driven search of a directory tree
 * for a file of a given name.
 */
module FindBinary {
  import opened Wrappers

  /** A directory entry; Other is neither a file nor a directory. */
  datatype Entry = File(name: string) | Directory(name: string, entries: seq<Entry>) | Other(name: string)

  /** The names from the root down to an entry. */
  type Path = seq<string>

  /** The path names a file called fileName in the tree. */
  predicate Holds(entries: seq<Entry>, path: Path, fileName: string)
    decreases |path|
  {
    path != [] &&
    exists i :: 0 <= i < |entries| && Leads(entries[i], path, fileName)
  }

  predicate Leads(e: Entry, path: Path, fileName: string)
    decreases |path|, 0
  {
    path != [] && e.name == path[0] &&
    if |path| == 1 then e.File? && e.name == fileName
    else e.Directory? && Holds(e.entries, path[1..], fileName)
  }

  /** The first of the wanted files exactly `depth` levels down, in listing order. */
  function FirstAt(entries: seq<Entry>, depth: nat, fileName: string): Option<Path>
    decreases depth, |entries|, 1
  {
    if depth == 0 || entries == [] then None
    else OrElse(FirstUnder(entries[0], depth, fileName), FirstAt(entries[1..], depth, fileName))
  }

  function FirstUnder(e: Entry, depth: nat, fileName: string): Option<Path>
    requires depth > 0
    decreases depth, 0, 0
  {
    if depth == 1 then if e.File? && e.name == fileName then Some([e.name]) else None
    else if e.Directory? then Under([e.name], FirstAt(e.entries, depth - 1, fileName))
    else None
  }

  function OrElse(a: Option<Path>, b: Option<Path>): Option<Path> {
    if a.Some? then a else b
  }

  function Under(path: Path, r: Option<Path>): Option<Path> {
    match r
    case Some(rest) => Some(path + rest)
    case None => None
  }

  /** It is a path to a wanted file of that depth, and there is one whenever there is such a path. */
  lemma {:induction false} FirstAtExactly(entries: seq<Entry>, depth: nat, fileName: string)
    ensures FirstAt(entries, depth, fileName).Some? ==>
              Holds(entries, FirstAt(entries, depth, fileName).value, fileName)
              && |FirstAt(entries, depth, fileName).value| == depth
    ensures FirstAt(entries, depth, fileName).None? ==>
              forall path :: Holds(entries, path, fileName) ==> |path| != depth
    decreases depth, |entries|, 1
  {
    if depth > 0 && entries != [] {
      FirstUnderExactly(entries[0], depth, fileName);
      FirstAtExactly(entries[1..], depth, fileName);
      forall path { HoldsTail(entries, path, fileName); }
    }
  }

  lemma {:induction false} FirstUnderExactly(e: Entry, depth: nat, fileName: string)
    requires depth > 0
    ensures FirstUnder(e, depth, fileName).Some? ==>
              Leads(e, FirstUnder(e, depth, fileName).value, fileName)
              && |FirstUnder(e, depth, fileName).value| == depth
    ensures FirstUnder(e, depth, fileName).None? ==>
              forall path :: Leads(e, path, fileName) ==> |path| != depth
    decreases depth, 0, 0
  {
    if depth > 1 && e.Directory? {
      FirstAtExactly(e.entries, depth - 1, fileName);
      var first := FirstAt(e.entries, depth - 1, fileName);
      if first.Some? { assert ([e.name] + first.value)[1..] == first.value; }
    }
  }

  function Size(entries: seq<Entry>): nat {
    if entries == [] then 0 else
    1 + (if entries[0].Directory? then Size(entries[0].entries) else 0) + Size(entries[1..])
  }

  /** A directory waiting to be read. */
  datatype Pending = Pending(path: Path, entries: seq<Entry>)

  function Work(queue: seq<Pending>): nat {
    if queue == [] then 0 else 1 + Size(queue[0].entries) + Work(queue[1..])
  }

  lemma {:induction false} WorkConcat(a: seq<Pending>, b: seq<Pending>)
    ensures Work(a + b) == Work(a) + Work(b)
  {
    if a == [] {
      assert a + b == b;
    } else {
      assert (a + b)[1..] == a[1..] + b;
      WorkConcat(a[1..], b);
    }
  }

  /** The path names a wanted file below the pending directory. */
  ghost predicate Below(p: Pending, path: Path, fileName: string) {
    p.path <= path && Holds(p.entries, path[|p.path|..], fileName)
  }

  /** What is pending is part of the tree. */
  ghost predicate InTree(root: seq<Entry>, p: Pending, fileName: string) {
    forall path :: Below(p, path, fileName) ==> Holds(root, path, fileName)
  }

  /** Shallow before deep, at most one level apart. */
  ghost predicate ByDepth(queue: seq<Pending>) {
    && (forall i, j :: 0 <= i < j < |queue| ==> |queue[i].path| <= |queue[j].path|)
    && (forall i :: 0 <= i < |queue| ==> |queue[i].path| <= |queue[0].path| + 1)
  }

  /** The wanted file at this path is below a pending directory. */
  ghost predicate Covered(queue: seq<Pending>, path: Path, fileName: string) {
    exists i :: 0 <= i < |queue| && Below(queue[i], path, fileName)
  }

  lemma HoldsTail(entries: seq<Entry>, path: Path, fileName: string)
    requires entries != []
    ensures Holds(entries, path, fileName) <==> Leads(entries[0], path, fileName) || Holds(entries[1..], path, fileName)
  {
    var tail := entries[1..];
    if Holds(tail, path, fileName) {
      var i :| 0 <= i < |tail| && Leads(tail[i], path, fileName);
      assert Leads(entries[i + 1], path, fileName);
    }
    if Holds(entries, path, fileName) {
      var i :| 0 <= i < |entries| && Leads(entries[i], path, fileName);
      if i > 0 { assert Leads(tail[i - 1], path, fileName); }
    }
  }

  /** What a sub-directory holds, its parent holds under its name. */
  lemma SubdirectoryBelow(p: Pending, e: Entry, path: Path, fileName: string)
    requires e.Directory?
    ensures Below(Pending(p.path + [e.name], e.entries), path, fileName) <==>
            p.path <= path && Leads(e, path[|p.path|..], fileName)
  {
    var sub := Pending(p.path + [e.name], e.entries);
    var n := |p.path|;
    if p.path <= path && |path| > n {
      var rest := path[n..];
      assert rest[1..] == path[n + 1..];
      if path[n] == e.name { assert path[..n + 1] == sub.path; }
    }
    if sub.path <= path {
      assert path[n] == sub.path[n] == e.name;
      assert path[..n] == sub.path[..n] == p.path;
    }
  }

  // ----- level by level -----

  /** The first of the wanted files `depth` levels below the pending directories, in their order. */
  function FirstOf(queue: seq<Pending>, depth: nat, fileName: string): Option<Path> {
    if queue == [] then None
    else OrElse(Under(queue[0].path, FirstAt(queue[0].entries, depth, fileName)), FirstOf(queue[1..], depth, fileName))
  }

  lemma {:induction false} FirstOfConcat(a: seq<Pending>, b: seq<Pending>, depth: nat, fileName: string)
    ensures FirstOf(a + b, depth, fileName) == OrElse(FirstOf(a, depth, fileName), FirstOf(b, depth, fileName))
  {
    if a == [] {
      assert a + b == b;
    } else {
      assert (a + b)[1..] == a[1..] + b;
      FirstOfConcat(a[1..], b, depth, fileName);
    }
  }

  /** Of the files `depth` levels below depth k, those under the sub-directories queued already come first. */
  ghost predicate FirstsKept(root: seq<Entry>, queue: seq<Pending>, a: nat, k: nat, depth: nat, fileName: string)
    requires a <= |queue| && depth > 0
  {
    FirstAt(root, k + depth, fileName) ==
    OrElse(FirstOf(queue[a..], depth - 1, fileName), FirstOf(queue[..a], depth, fileName))
  }

  /** The first a pending directories are those of depth k still to be read, and the others of the depth below. */
  ghost predicate Levels(root: seq<Entry>, queue: seq<Pending>, a: nat, k: nat, fileName: string) {
    && a <= |queue| && (a > 0 ==> |queue[0].path| == k)
    && (forall i :: 0 <= i < |queue| ==> |queue[i].path| == if i < a then k else k + 1)
    && (forall depth: nat :: depth > 0 ==> FirstsKept(root, queue, a, k, depth, fileName))
  }

  lemma LevelsBegin(root: seq<Entry>, fileName: string)
    ensures Levels(root, [Pending([], root)], 1, 0, fileName)
  {
    var queue := [Pending([], root)];
    forall depth: nat | depth > 0 ensures FirstsKept(root, queue, 1, 0, depth, fileName) {
      assert queue[..1] == queue && queue[1..] == [];
      var first := FirstAt(root, depth, fileName);
      if first.Some? { assert [] + first.value == first.value; }
    }
  }

  /** With the level read, the next one begins. */
  lemma NextLevel(root: seq<Entry>, queue: seq<Pending>, k: nat, fileName: string)
    requires Levels(root, queue, 0, k, fileName)
    ensures Levels(root, queue, |queue|, k + 1, fileName)
  {
    assert queue[0..] == queue && queue[..0] == [] && queue[..|queue|] == queue && queue[|queue|..] == [];
    var size, below := |queue|, k + 1;
    forall depth: nat | depth > 0 ensures FirstsKept(root, queue, size, below, depth, fileName) {
      assert FirstsKept(root, queue, 0, k, depth + 1, fileName);
    }
  }

  /** Below a directory without a wanted file in it, what its sub-directories hold, in order. */
  ghost predicate SameFirsts(current: Pending, more: seq<Pending>, fileName: string) {
    forall depth: nat :: FirstOf(more, depth, fileName) ==
                         Under(current.path, FirstAt(current.entries, depth + 1, fileName))
  }

  lemma ReadOne(root: seq<Entry>, queue: seq<Pending>, a: nat, k: nat, more: seq<Pending>, fileName: string)
    requires Levels(root, queue, a, k, fileName) && a > 0 && SameFirsts(queue[0], more, fileName)
    requires forall i :: 0 <= i < |more| ==> |more[i].path| == k + 1
    ensures Levels(root, queue[1..] + more, a - 1, k, fileName)
  {
    var next, left := queue[1..] + more, a - 1;
    forall depth: nat | depth > 0 ensures FirstsKept(root, next, left, k, depth, fileName) {
      assert FirstsKept(root, queue, a, k, depth, fileName);
      assert next[..a - 1] == queue[..a][1..] && next[a - 1..] == queue[a..] + more;
      FirstOfConcat(queue[a..], more, depth - 1, fileName);
    }
  }

  /** A wanted file in the first directory of the level is the first of its depth. */
  lemma FoundFirst(root: seq<Entry>, queue: seq<Pending>, a: nat, k: nat, found: Path, fileName: string)
    requires Levels(root, queue, a, k, fileName) && a > 0
    requires Under(queue[0].path, FirstAt(queue[0].entries, 1, fileName)) == Some(found)
    ensures FirstAt(root, k + 1, fileName) == Some(found)
  {
    assert FirstsKept(root, queue, a, k, 1, fileName);
    NoneAtZero(queue[a..], fileName);
  }

  lemma {:induction false} NoneAtZero(queue: seq<Pending>, fileName: string)
    ensures FirstOf(queue, 0, fileName) == None
  {
    if queue != [] { NoneAtZero(queue[1..], fileName); }
  }

  /** What is pending is part of the tree and covers all of it that is left, level by level. */
  ghost predicate Searching(root: seq<Entry>, queue: seq<Pending>, a: nat, k: nat, fileName: string) {
    && (forall i :: 0 <= i < |queue| ==> InTree(root, queue[i], fileName))
    && (forall path :: Holds(root, path, fileName) ==> Covered(queue, path, fileName))
    && ByDepth(queue) && Levels(root, queue, a, k, fileName)
  }

  lemma SearchBegins(root: seq<Entry>, fileName: string)
    ensures Searching(root, [Pending([], root)], 1, 0, fileName)
  {
    var queue := [Pending([], root)];
    forall path ensures Below(queue[0], path, fileName) <==> Holds(root, path, fileName) {
      assert path[0..] == path;
    }
    LevelsBegin(root, fileName);
  }

  lemma SearchGoesOn(
    root: seq<Entry>, queue: seq<Pending>, a: nat, k: nat, more: seq<Pending>, fileName: string)
    requires Searching(root, queue, a, k, fileName) && a > 0 && SameFirsts(queue[0], more, fileName)
    requires forall path :: Below(queue[0], path, fileName) <==> Covered(more, path, fileName)
    requires forall i :: 0 <= i < |more| ==> |more[i].path| == |queue[0].path| + 1
    requires Work(more) <= Size(queue[0].entries)
    ensures Searching(root, queue[1..] + more, a - 1, k, fileName)
    ensures Work(queue[1..] + more) < Work(queue)
  {
    WorkConcat(queue[1..], more);
    StillCovered(root, queue, more, fileName);
    ReadOne(root, queue, a, k, more, fileName);
  }

  lemma SearchFinds(root: seq<Entry>, queue: seq<Pending>, a: nat, k: nat, found: Path, fileName: string)
    requires Searching(root, queue, a, k, fileName) && a > 0
    requires |found| == |queue[0].path| + 1 && Below(queue[0], found, fileName)
    requires Under(queue[0].path, FirstAt(queue[0].entries, 1, fileName)) == Some(found)
    ensures Holds(root, found, fileName) && FirstAt(root, |found|, fileName) == Some(found)
    ensures forall path :: Holds(root, path, fileName) ==> |found| <= |path|
  {
    LeastDepth(root, queue, found, fileName);
    FoundFirst(root, queue, a, k, found, fileName);
  }

  /**
   * The wanted file of least depth that comes first in listing order, or none when there is none.
   * Listing order is the order of `entries`.
   */
  method Find(root: seq<Entry>, fileName: string) returns (found: Option<Path>)
    ensures found.Some? ==>
      && Holds(root, found.value, fileName)
      && forall path :: Holds(root, path, fileName) ==> |found.value| <= |path|
    ensures found.Some? ==> found == FirstAt(root, |found.value|, fileName)
    ensures found.None? ==> forall path :: !Holds(root, path, fileName)
  {
    var queue := [Pending([], root)];
    ghost var a: nat, k: nat := 1, 0;
    SearchBegins(root, fileName);
    while queue != []
      invariant Searching(root, queue, a, k, fileName)
      decreases Work(queue)
    {
      if a == 0 {
        NextLevel(root, queue, k, fileName);
        a, k := |queue|, k + 1;
      }
      var more;
      found, more := ReadDirectory(queue[0], fileName);
      if found.Some? {
        SearchFinds(root, queue, a, k, found.value, fileName);
        return;
      }
      SearchGoesOn(root, queue, a, k, more, fileName);
      queue := queue[1..] + more;
      a := a - 1;
    }
    return None;
  }

  /** The queue is ordered, so a file found in its first directory is of least depth. */
  lemma LeastDepth(root: seq<Entry>, queue: seq<Pending>, found: Path, fileName: string)
    requires queue != [] && ByDepth(queue) && |found| == |queue[0].path| + 1
    requires forall path :: Holds(root, path, fileName) ==> Covered(queue, path, fileName)
    ensures forall path :: Holds(root, path, fileName) ==> |found| <= |path|
  {
    forall path | Holds(root, path, fileName) ensures |found| <= |path| {
      var i :| 0 <= i < |queue| && Below(queue[i], path, fileName);
      assert |queue[0].path| <= |queue[i].path| < |path|;
    }
  }

  /** Replacing the first directory by its sub-directories loses nothing. */
  lemma StillCovered(root: seq<Entry>, queue: seq<Pending>, more: seq<Pending>, fileName: string)
    requires queue != [] && ByDepth(queue) && InTree(root, queue[0], fileName)
    requires forall i :: 0 <= i < |queue| ==> InTree(root, queue[i], fileName)
    requires forall path :: Holds(root, path, fileName) ==> Covered(queue, path, fileName)
    requires forall path :: Below(queue[0], path, fileName) <==> Covered(more, path, fileName)
    requires forall k :: 0 <= k < |more| ==> |more[k].path| == |queue[0].path| + 1
    ensures var next := queue[1..] + more;
      && (forall i :: 0 <= i < |next| ==> InTree(root, next[i], fileName))
      && (forall path :: Holds(root, path, fileName) ==> Covered(next, path, fileName))
      && ByDepth(next)
  {
    var next := queue[1..] + more;
    forall i | 0 <= i < |next| ensures InTree(root, next[i], fileName) {
      if i < |queue| - 1 {
        assert next[i] == queue[i + 1];
      } else {
        var k := i - (|queue| - 1);
        forall path | Below(next[i], path, fileName) ensures Holds(root, path, fileName) {
          assert Below(more[k], path, fileName);
          assert Covered(more, path, fileName);
        }
      }
    }
    forall path | Holds(root, path, fileName) ensures Covered(next, path, fileName) {
      var i :| 0 <= i < |queue| && Below(queue[i], path, fileName);
      if i > 0 {
        assert Below(next[i - 1], path, fileName);
      } else {
        var k :| 0 <= k < |more| && Below(more[k], path, fileName);
        assert Below(next[|queue| - 1 + k], path, fileName);
      }
    }
  }

  /** What is found below the directory is found below the sub-directories so far or among the entries to come. */
  ghost predicate FirstsSoFar(current: Pending, more: seq<Pending>, rest: seq<Entry>, fileName: string) {
    forall depth: nat :: FirstFrom(current, more, rest, depth, fileName) ==
                         Under(current.path, FirstAt(current.entries, depth + 1, fileName))
  }

  function FirstFrom(
    current: Pending, more: seq<Pending>, rest: seq<Entry>, depth: nat, fileName: string): Option<Path>
  {
    OrElse(FirstOf(more, depth, fileName), Under(current.path, FirstAt(rest, depth + 1, fileName)))
  }

  lemma FirstsBegin(current: Pending, fileName: string)
    ensures FirstsSoFar(current, [], current.entries, fileName)
  {
  }

  lemma FirstsEnd(current: Pending, more: seq<Pending>, fileName: string)
    requires FirstsSoFar(current, more, [], fileName)
    ensures SameFirsts(current, more, fileName)
  {
    forall depth: nat
      ensures FirstOf(more, depth, fileName) == Under(current.path, FirstAt(current.entries, depth + 1, fileName))
    {
      assert FirstFrom(current, more, [], depth, fileName) == FirstOf(more, depth, fileName);
    }
  }

  /** A sub-directory joins the others. */
  lemma FirstsMore(current: Pending, more: seq<Pending>, rest: seq<Entry>, fileName: string)
    requires rest != [] && rest[0].Directory? && FirstsSoFar(current, more, rest, fileName)
    ensures FirstsSoFar(current, more + [Pending(current.path + [rest[0].name], rest[0].entries)], rest[1..], fileName)
  {
    var e := rest[0];
    var sub := Pending(current.path + [e.name], e.entries);
    forall depth: nat
      ensures FirstFrom(current, more + [sub], rest[1..], depth, fileName) ==
              Under(current.path, FirstAt(current.entries, depth + 1, fileName))
    {
      assert FirstFrom(current, more, rest, depth, fileName) ==
             Under(current.path, FirstAt(current.entries, depth + 1, fileName));
      FirstOfConcat(more, [sub], depth, fileName);
      FirstOfOne(current.path, e, depth, fileName);
    }
  }

  lemma FirstOfOne(path: Path, e: Entry, depth: nat, fileName: string)
    requires e.Directory?
    ensures FirstOf([Pending(path + [e.name], e.entries)], depth, fileName) ==
            Under(path, FirstUnder(e, depth + 1, fileName))
  {
    var first := FirstAt(e.entries, depth, fileName);
    assert [Pending(path + [e.name], e.entries)][1..] == [];
    if first.Some? { assert path + ([e.name] + first.value) == path + [e.name] + first.value; }
  }

  lemma FirstsSkip(current: Pending, more: seq<Pending>, rest: seq<Entry>, fileName: string)
    requires rest != [] && !rest[0].Directory? && !(rest[0].File? && rest[0].name == fileName)
    requires FirstsSoFar(current, more, rest, fileName)
    ensures FirstsSoFar(current, more, rest[1..], fileName)
  {
    forall depth: nat
      ensures FirstFrom(current, more, rest[1..], depth, fileName) ==
              Under(current.path, FirstAt(current.entries, depth + 1, fileName))
    {
      assert FirstFrom(current, more, rest, depth, fileName) ==
             Under(current.path, FirstAt(current.entries, depth + 1, fileName));
      assert FirstUnder(rest[0], depth + 1, fileName) == None;
    }
  }

  lemma FirstsFound(current: Pending, more: seq<Pending>, rest: seq<Entry>, fileName: string)
    requires rest != [] && rest[0].File? && rest[0].name == fileName && FirstsSoFar(current, more, rest, fileName)
    ensures Under(current.path, FirstAt(current.entries, 1, fileName)) == Some(current.path + [fileName])
  {
    assert FirstFrom(current, more, rest, 0, fileName) ==
           Under(current.path, FirstAt(current.entries, 1, fileName));
    NoneAtZero(more, fileName);
    assert FirstUnder(rest[0], 1, fileName) == Some([fileName]);
  }

  /** The inner loop: a wanted file in this directory, or all its sub-directories in order. */
  method ReadDirectory(current: Pending, fileName: string) returns (found: Option<Path>, more: seq<Pending>)
    ensures found.Some? ==>
      |found.value| == |current.path| + 1 && Below(current, found.value, fileName)
    ensures found.Some? ==> found == Under(current.path, FirstAt(current.entries, 1, fileName))
    ensures found.None? ==> SameFirsts(current, more, fileName)
    ensures found.None? ==>
      && (forall path :: Below(current, path, fileName) <==> Covered(more, path, fileName))
      && (forall k :: 0 <= k < |more| ==> |more[k].path| == |current.path| + 1)
      && Work(more) <= Size(current.entries)
  {
    more := [];
    var n := |current.path|;
    var entries := current.entries;
    assert entries[0..] == entries;
    FirstsBegin(current, fileName);
    for i := 0 to |entries|
      invariant forall path :: Below(current, path, fileName) <==>
        Covered(more, path, fileName) || Below(Pending(current.path, entries[i..]), path, fileName)
      invariant forall k :: 0 <= k < |more| ==> |more[k].path| == n + 1
      invariant Work(more) + Size(entries[i..]) <= Size(entries)
      invariant FirstsSoFar(current, more, entries[i..], fileName)
    {
      var e := entries[i];
      ghost var rest := entries[i..];
      assert rest[0] == e && rest[1..] == entries[i + 1..];
      forall path { HoldsTail(rest, path, fileName); }
      if e.Directory? {
        var sub := Pending(current.path + [e.name], e.entries);
        forall path { SubdirectoryBelow(current, e, path, fileName); }
        CoveredMore(more, sub, fileName);
        WorkConcat(more, [sub]);
        FirstsMore(current, more, rest, fileName);
        more := more + [sub];
      } else if e.File? && e.name == fileName {
        var path := current.path + [e.name];
        assert path[n..] == [e.name];
        assert Leads(e, [e.name], fileName);
        FirstsFound(current, more, rest, fileName);
        return Some(path), more;
      } else {
        forall path ensures !Leads(e, path, fileName) { }
        FirstsSkip(current, more, rest, fileName);
      }
    }
    assert entries[|entries|..] == [];
    FirstsEnd(current, more, fileName);
    return None, more;
  }

  lemma CoveredMore(queue: seq<Pending>, p: Pending, fileName: string)
    ensures forall path ::
      Covered(queue + [p], path, fileName) <==> Covered(queue, path, fileName) || Below(p, path, fileName)
  {
    var more := queue + [p];
    assert forall i :: 0 <= i < |queue| ==> more[i] == queue[i];
    assert more[|queue|] == p;
  }
}
