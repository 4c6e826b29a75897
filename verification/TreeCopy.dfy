// Materialising a copy of a tree from its scan: temporary siblings, directories made writable first and
// given their modes last, deepest first.
module TreeCopy {
  import opened Text
  import opened Order
  import opened TreeScan

  // The owner may enter a directory with this mode.
  predicate Searchable(mode: nat) { (mode / 64) % 2 == 1 }

  // Mode of a directory while it is being filled.
  const WORK_MODE: nat := 448 // 0o700

  // Every directory above the path can be entered.
  predicate Reachable(t: Tree, path: string)
    decreases |path|
  {
    path == "" || (Parent(path) in t && t[Parent(path)].Dir? && Searchable(t[Parent(path)].mode) && Reachable(t, Parent(path)))
  }

  // The directory and those above it, created where missing.
  function EnsureDirs(t: Tree, dir: string): (r: Option<Tree>)
    decreases |dir|
  {
    if dir == "" then Some(t)
    else
      var above := EnsureDirs(t, Parent(dir));
      if above.None? then None
      else if dir !in above.value then Some(above.value[dir := Dir(WORK_MODE)])
      else if above.value[dir].Dir? then above
      else None
  }

  // Content and mode are written to a temporary sibling, which then takes the name.
  function PutFile(t: Tree, path: string, entry: Entry): (r: Option<Tree>) {
    var temp := path + ".tmp";
    if temp in t || (path in t && t[path].Dir?) then None
    else Some(t[path := entry])
  }

  // chmod: it has no effect on a path that cannot be reached.
  function SetMode(t: Tree, path: string, mode: nat): Tree {
    if path in t && t[path].Dir? && Reachable(t, path) then t[path := Dir(mode)] else t
  }

  datatype DirMode = DirMode(path: string, mode: nat)

  // copy_tree: the source as it is while record i is copied is sources(i).  From a source that stays as it
  // was scanned the copy is the scanned tree, modes and empty directories included.
  method CopyTree(sources: nat -> Tree, records: seq<Record>, ghost t: Tree) returns (r: Option<Tree>)
    ensures Faithful(sources, records, t) ==> r == Some(t)
    ensures r.Some? ==> ValidTree(r.value)
    ensures r.Some? ==> Sourced(sources, records, |records|)
    ensures r.Some? && Increasing(records) ==> FilesCopied(r.value, sources, records, |records|)
  {
    hide *;
    RootAlone();
    NothingCopied(map["" := Dir(WORK_MODE)], sources, records);
    var copy: Tree := map["" := Dir(WORK_MODE)];
    var dirModes: seq<DirMode> := [];
    FaithfulIs(sources, records, t);
    for i := 0 to |records|
      invariant Faithful(sources, records, t) ==> Built(copy, dirModes, records, i, t)
      invariant ValidTree(copy)
      invariant Sourced(sources, records, i) && (Increasing(records) ==> FilesCopied(copy, sources, records, i))
    {
      CopiedStep(copy, sources, records, i);
      CopyStaysValid(copy, Parent(records[i].path), records[i].path);
      if Faithful(sources, records, t) { BuildStep(copy, dirModes, records, i, t); }
      var record := records[i];
      if record.entry.Dir? {
        dirModes := dirModes + [DirMode(record.path, record.entry.mode)];
        if record.path != "" {
          var above := EnsureDirs(copy, Parent(record.path));
          if above.None? { return None; }
          copy := above.value;
          if record.path !in copy {
            copy := copy[record.path := Dir(WORK_MODE)];
          } else if copy[record.path].File? {
            return None;
          }
        }
      } else {
        var source := sources(i);
        if record.path !in source || source[record.path].Dir? { return None; }
        var above := EnsureDirs(copy, Parent(record.path));
        if above.None? { return None; }
        var put := PutFile(above.value, record.path, File(record.entry.mode, source[record.path].content));
        if put.None? { return None; }
        copy := put.value;
      }
    }
    if Faithful(sources, records, t) { AllBuilt(copy, dirModes, records, t); }
    ghost var filled := copy;
    copy := ApplyModes(copy, dirModes, t);
    FilesStayCopied(filled, copy, sources, records);
    return Some(copy);
  }

  // Every file that was listed was there as a file when it was copied.
  ghost predicate Sourced(sources: nat -> Tree, records: seq<Record>, i: nat)
    requires i <= |records|
  {
    forall j: nat | j < i && records[j].entry.File? :: records[j].path in sources(j) && sources(j)[records[j].path].File?
  }

  // Its copy has the listed mode and the content it had then.
  ghost predicate FilesCopied(copy: Tree, sources: nat -> Tree, records: seq<Record>, i: nat)
    requires i <= |records| && Sourced(sources, records, i)
  {
    forall j: nat | j < i && records[j].entry.File? ::
      records[j].path in copy && copy[records[j].path] == File(records[j].entry.mode, sources(j)[records[j].path].content)
  }

  lemma NothingCopied(copy: Tree, sources: nat -> Tree, records: seq<Record>)
    ensures Sourced(sources, records, 0) && FilesCopied(copy, sources, records, 0)
  {
  }

  // What is added for one record keeps the files copied before.
  lemma CopiedStep(copy: Tree, sources: nat -> Tree, records: seq<Record>, i: nat)
    requires i < |records| && Sourced(sources, records, i)
    ensures var record := records[i];
      && (record.entry.Dir? ==> Sourced(sources, records, i + 1))
      && (record.entry.File? && record.path in sources(i) && sources(i)[record.path].File? ==> Sourced(sources, records, i + 1))
    ensures Increasing(records) && FilesCopied(copy, sources, records, i) ==>
      var record, above := records[i], EnsureDirs(copy, Parent(records[i].path));
      && (record.entry.Dir? ==> FilesCopied(copy, sources, records, i + 1))
      && (record.entry.Dir? && above.Some? ==>
            && FilesCopied(above.value, sources, records, i + 1)
            && (record.path !in above.value ==> FilesCopied(above.value[record.path := Dir(WORK_MODE)], sources, records, i + 1)))
      && (record.entry.File? && above.Some? && record.path in sources(i) && sources(i)[record.path].File? ==>
            var put := PutFile(above.value, record.path, File(record.entry.mode, sources(i)[record.path].content));
            put.Some? ==> FilesCopied(put.value, sources, records, i + 1))
  {
    hide EnsureDirs, LexLe;
    EnsureDirsKeeps(copy, Parent(records[i].path));
  }

  lemma {:induction false} EnsureDirsKeeps(t: Tree, dir: string)
    ensures EnsureDirs(t, dir).Some? ==> forall p | p in t :: p in EnsureDirs(t, dir).value && EnsureDirs(t, dir).value[p] == t[p]
    decreases |dir|
  {
    hide Parent;
    if dir != "" { EnsureDirsKeeps(t, Parent(dir)); }
  }

  ghost predicate FilesKept(was: Tree, now: Tree) {
    forall p | p in was && was[p].File? :: p in now && now[p] == was[p]
  }

  lemma FilesStayCopied(was: Tree, now: Tree, sources: nat -> Tree, records: seq<Record>)
    requires Sourced(sources, records, |records|) && FilesKept(was, now)
    ensures FilesCopied(was, sources, records, |records|) ==> FilesCopied(now, sources, records, |records|)
  {
  }

  lemma SetModeKeepsFiles(was: Tree, t: Tree, path: string, mode: nat)
    requires FilesKept(was, t)
    ensures FilesKept(was, SetMode(t, path, mode))
  {
    hide Reachable;
  }

  lemma AllFilesKept(t: Tree)
    ensures FilesKept(t, t)
  {
  }

  lemma RootAlone()
    ensures ValidTree(map["" := Dir(WORK_MODE)])
  {
  }

  lemma {:induction false} EnsureDirsValid(t: Tree, dir: string)
    requires ValidTree(t)
    ensures EnsureDirs(t, dir).Some? ==>
      ValidTree(EnsureDirs(t, dir).value) && dir in EnsureDirs(t, dir).value && EnsureDirs(t, dir).value[dir].Dir?
    decreases |dir|
  {
    hide Parent;
    if dir != "" { EnsureDirsValid(t, Parent(dir)); }
  }

  // Whatever the source turned into, what is built is a tree.
  lemma CopyStaysValid(copy: Tree, dir: string, path: string)
    requires ValidTree(copy) && dir == Parent(path)
    ensures EnsureDirs(copy, dir).Some? ==>
      var above := EnsureDirs(copy, dir).value;
      && ValidTree(above)
      && (path !in above ==> ValidTree(above[path := Dir(WORK_MODE)]))
      && forall entry: Entry | entry.File? && PutFile(above, path, entry).Some? :: ValidTree(PutFile(above, path, entry).value)
  {
    hide Parent, EnsureDirs;
    EnsureDirsValid(copy, dir);
  }

  lemma SetModeValid(t: Tree, path: string, mode: nat)
    requires ValidTree(t)
    ensures ValidTree(SetMode(t, path, mode))
  {
    hide Parent, Reachable;
  }

  ghost predicate Faithful(sources: nat -> Tree, records: seq<Record>, t: Tree) {
    ValidTree(t) && IsScan(records, t) && forall i: nat | i < |records| :: sources(i) == t
  }

  lemma FaithfulIs(sources: nat -> Tree, records: seq<Record>, t: Tree)
    ensures Faithful(sources, records, t) ==>
      Built(map["" := Dir(WORK_MODE)], [], records, 0, t) && forall i: nat | i < |records| :: sources(i) == t
  {
    hide ValidTree, IsScan;
  }

  // chmod in a second pass, deepest directories first.
  method ApplyModes(copy: Tree, dirModes: seq<DirMode>, ghost t: Tree) returns (r: Tree)
    requires ValidTree(copy)
    ensures Filled(copy, dirModes, t) ==> r == t
    ensures ValidTree(r) && FilesKept(copy, r)
  {
    hide *;
    var sorted := DeepestFirst(dirModes);
    r := copy;
    AllFilesKept(copy);
    if Filled(copy, dirModes, t) { NoModesYet(copy, dirModes, sorted, t); }
    for i := 0 to |sorted|
      invariant Filled(copy, dirModes, t) ==> ModesApplied(r, sorted, i, t)
      invariant ValidTree(r) && FilesKept(copy, r)
    {
      SetModeValid(r, sorted[i].path, sorted[i].mode);
      SetModeKeepsFiles(copy, r, sorted[i].path, sorted[i].mode);
      if Filled(copy, dirModes, t) { ApplyMode(r, sorted, i, t); }
      r := SetMode(r, sorted[i].path, sorted[i].mode);
    }
    if Filled(copy, dirModes, t) { AllApplied(r, sorted, t); }
  }

  // sorted(dir_modes, key=len of the path, reverse=True)
  method DeepestFirst(dirModes: seq<DirMode>) returns (sorted: seq<DirMode>)
    ensures Shrinking(sorted) && forall d :: d in sorted <==> d in dirModes
  {
    hide InsertDeepest;
    sorted := [];
    for i := 0 to |dirModes|
      invariant Shrinking(sorted) && forall d :: d in sorted <==> d in dirModes[..i]
    {
      assert dirModes[..i + 1] == dirModes[..i] + [dirModes[i]];
      InsertDeepestShrinks(dirModes[i], sorted);
      sorted := InsertDeepest(dirModes[i], sorted);
    }
    assert dirModes[..|dirModes|] == dirModes;
  }

  ghost predicate Shrinking(sorted: seq<DirMode>) {
    forall i, j | 0 <= i < j < |sorted| :: |sorted[i].path| >= |sorted[j].path|
  }

  function InsertDeepest(d: DirMode, sorted: seq<DirMode>): seq<DirMode> {
    if |sorted| == 0 || |d.path| > |sorted[0].path| then [d] + sorted else [sorted[0]] + InsertDeepest(d, sorted[1..])
  }

  lemma {:induction false} InsertDeepestShrinks(d: DirMode, sorted: seq<DirMode>)
    requires Shrinking(sorted)
    ensures Shrinking(InsertDeepest(d, sorted))
    ensures forall x :: x in InsertDeepest(d, sorted) <==> x == d || x in sorted
    decreases |sorted|
  {
    if |sorted| > 0 {
      assert sorted == [sorted[0]] + sorted[1..];
      if |d.path| <= |sorted[0].path| {
        InsertDeepestShrinks(d, sorted[1..]);
        var rest := InsertDeepest(d, sorted[1..]);
        forall j | 0 <= j < |rest| ensures |sorted[0].path| >= |rest[j].path| {
          assert rest[j] in rest;
          assert rest[j] == d || rest[j] in sorted[1..];
        }
      }
    }
  }

  // ----- while records are copied -----

  // What a record looks like in the copy before modes are applied.
  function Made(entry: Entry): Entry {
    if entry.Dir? then Dir(WORK_MODE) else entry
  }

  ghost predicate BuiltAs(copy: Tree, records: seq<Record>, i: nat)
    requires i <= |records|
  {
    && "" in copy && copy[""] == Dir(WORK_MODE)
    && (forall p | p in copy && p != "" :: exists j: nat :: j < i && records[j].path == p)
    && (forall j: nat | j < i :: records[j].path in copy && copy[records[j].path] == Made(records[j].entry))
  }

  ghost predicate ModesOf(dirModes: seq<DirMode>, records: seq<Record>, i: nat)
    requires i <= |records|
  {
    && (forall d :: d in dirModes <==> exists j: nat :: j < i && records[j] == Record(d.path, Dir(d.mode)))
    && (forall k, l | 0 <= k < l < |dirModes| :: dirModes[k].path != dirModes[l].path)
  }

  ghost predicate Built(copy: Tree, dirModes: seq<DirMode>, records: seq<Record>, i: nat, t: Tree) {
    && i <= |records| && ValidTree(t) && IsScan(records, t)
    && BuiltAs(copy, records, i) && ModesOf(dirModes, records, i)
  }

  lemma {:induction false} PrefixIsBefore(a: string, b: string)
    requires a <= b
    ensures LexLe(a, b)
    decreases |a|
  {
    if a != "" {
      assert a[1..] <= b[1..];
      PrefixIsBefore(a[1..], b[1..]);
    }
  }

  // The directory is in the copy, and so are those above it.
  ghost predicate HasDirs(copy: Tree, dir: string)
    decreases |dir|
  {
    dir == "" || (dir in copy && copy[dir].Dir? && HasDirs(copy, Parent(dir)))
  }

  lemma {:induction false} EnsureNothing(copy: Tree, dir: string)
    requires HasDirs(copy, dir)
    ensures EnsureDirs(copy, dir) == Some(copy)
    decreases |dir|
  {
    hide Parent;
    if dir != "" { EnsureNothing(copy, Parent(dir)); }
  }

  // An entry that comes before record i was copied already.
  lemma CopiedBefore(copy: Tree, dirModes: seq<DirMode>, records: seq<Record>, i: nat, t: Tree, p: string)
    requires Built(copy, dirModes, records, i, t) && i < |records|
    requires p in t && LexLe(p, records[i].path) && p != records[i].path
    ensures p in copy && copy[p] == Made(t[p])
  {
    hide LexLe, Parent;
    assert Record(p, t[p]) in records;
    var k :| 0 <= k < |records| && records[k] == Record(p, t[p]);
    if i < k { LexAntisymmetric(p, records[i].path); }
  }

  lemma {:induction false} DirsCopiedBefore(copy: Tree, dirModes: seq<DirMode>, records: seq<Record>, i: nat, t: Tree, dir: string)
    requires Built(copy, dirModes, records, i, t) && i < |records|
    requires dir in t && t[dir].Dir? && LexLe(dir, records[i].path) && dir != records[i].path
    ensures HasDirs(copy, dir)
    decreases |dir|
  {
    hide LexLe, Parent, BuiltAs, ModesOf;
    CopiedBefore(copy, dirModes, records, i, t, dir);
    if dir != "" {
      var above := Parent(dir);
      PrefixIsBefore(above, dir);
      LexTransitive(above, dir, records[i].path);
      if above == records[i].path { LexAntisymmetric(dir, above); }
      DirsCopiedBefore(copy, dirModes, records, i, t, above);
    }
  }

  // Neither the path nor its temporary sibling is taken.
  lemma NamesAreFree(copy: Tree, dirModes: seq<DirMode>, records: seq<Record>, i: nat, t: Tree)
    requires Built(copy, dirModes, records, i, t) && i < |records| && records[i].path != ""
    ensures records[i].path !in copy && records[i].path + ".tmp" !in copy
  {
    hide LexLe, Parent, ModesOf;
    var path := records[i].path;
    PrefixIsBefore(path, path + ".tmp");
    forall j: nat | j < i ensures records[j].path != path && records[j].path != path + ".tmp" {
      if records[j].path == path + ".tmp" { LexAntisymmetric(path, path + ".tmp"); }
    }
  }

  lemma BuildStep(copy: Tree, dirModes: seq<DirMode>, records: seq<Record>, i: nat, t: Tree)
    requires Built(copy, dirModes, records, i, t) && i < |records|
    ensures var (path, entry) := (records[i].path, records[i].entry);
      && path in t && t[path] == entry
      && (path == "" ==> entry.Dir? && Built(copy, dirModes + [DirMode(path, entry.mode)], records, i + 1, t))
      && (path != "" ==> EnsureDirs(copy, Parent(path)) == Some(copy) && path !in copy)
      && (path != "" && entry.Dir? ==> Built(copy[path := Dir(WORK_MODE)], dirModes + [DirMode(path, entry.mode)], records, i + 1, t))
      && (entry.File? ==> PutFile(copy, path, entry) == Some(copy[path := entry]) && Built(copy[path := entry], dirModes, records, i + 1, t))
  {
    hide *;
    RecordIsEntry(copy, dirModes, records, i, t);
    var path, entry := records[i].path, records[i].entry;
    if path != "" {
      NamesAreFree(copy, dirModes, records, i, t);
      ParentBefore(path);
      DirsCopiedBefore(copy, dirModes, records, i, t, Parent(path));
      EnsureNothing(copy, Parent(path));
      PutIs(copy, path, entry);
    }
    GrowBuilt(copy, dirModes, records, i, t);
  }

  lemma RecordIsEntry(copy: Tree, dirModes: seq<DirMode>, records: seq<Record>, i: nat, t: Tree)
    requires Built(copy, dirModes, records, i, t) && i < |records|
    ensures var (path, entry) := (records[i].path, records[i].entry);
      && path in t && t[path] == entry && (path == "" ==> entry.Dir?)
      && (path != "" ==> Parent(path) in t && t[Parent(path)].Dir?)
  {
    hide Parent, BuiltAs, ModesOf, Increasing;
    assert records[i] in records;
  }

  lemma ParentBefore(path: string)
    requires path != ""
    ensures LexLe(Parent(path), path) && Parent(path) != path
  {
    hide LexLe;
    PrefixIsBefore(Parent(path), path);
  }

  lemma PutIs(copy: Tree, path: string, entry: Entry)
    requires path !in copy && path + ".tmp" !in copy
    ensures PutFile(copy, path, entry) == Some(copy[path := entry])
  {
  }

  lemma GrowBuilt(copy: Tree, dirModes: seq<DirMode>, records: seq<Record>, i: nat, t: Tree)
    requires Built(copy, dirModes, records, i, t) && i < |records|
    requires records[i].path != "" ==> records[i].path !in copy
    requires records[i].path == "" ==> records[i].entry.Dir?
    ensures var (path, entry) := (records[i].path, records[i].entry);
      && (path == "" ==> Built(copy, dirModes + [DirMode(path, entry.mode)], records, i + 1, t))
      && (path != "" && entry.Dir? ==> Built(copy[path := Dir(WORK_MODE)], dirModes + [DirMode(path, entry.mode)], records, i + 1, t))
      && (entry.File? ==> Built(copy[path := entry], dirModes, records, i + 1, t))
  {
    hide Lists, ValidTree;
    GrowCopy(copy, records, i);
    GrowModes(dirModes, records, i);
    hide *;
    BuiltIs(copy, dirModes, records, i, t);
    var path, entry := records[i].path, records[i].entry;
    BuiltIs(copy, dirModes + [DirMode(path, if entry.Dir? then entry.mode else 0)], records, i + 1, t);
    BuiltIs(copy[path := Dir(WORK_MODE)], dirModes + [DirMode(path, if entry.Dir? then entry.mode else 0)], records, i + 1, t);
    BuiltIs(copy[path := entry], dirModes, records, i + 1, t);
  }

  lemma BuiltIs(copy: Tree, dirModes: seq<DirMode>, records: seq<Record>, i: nat, t: Tree)
    requires i <= |records|
    ensures Built(copy, dirModes, records, i, t) <==>
      ValidTree(t) && IsScan(records, t) && BuiltAs(copy, records, i) && ModesOf(dirModes, records, i)
  {
    hide ValidTree, IsScan, BuiltAs, ModesOf;
  }

  lemma GrowCopy(copy: Tree, records: seq<Record>, i: nat)
    requires i < |records| && Increasing(records) && BuiltAs(copy, records, i)
    requires records[i].path == "" ==> records[i].entry.Dir?
    ensures records[i].path == "" ==> BuiltAs(copy, records, i + 1)
    ensures records[i].path != "" ==> BuiltAs(copy[records[i].path := Made(records[i].entry)], records, i + 1)
  {
    hide LexLe;
    var path := records[i].path;
    forall j: nat | j < i ensures records[j].path != path {}
    if path != "" {
      var next := copy[path := Made(records[i].entry)];
      forall p | p in next && p != "" ensures exists j: nat :: j < i + 1 && records[j].path == p {
        if p != path {
          var j: nat :| j < i && records[j].path == p;
          assert j < i + 1;
        }
      }
    } else {
      forall p | p in copy && p != "" ensures exists j: nat :: j < i + 1 && records[j].path == p {
        var j: nat :| j < i && records[j].path == p;
        assert j < i + 1;
      }
    }
  }

  lemma GrowModes(dirModes: seq<DirMode>, records: seq<Record>, i: nat)
    requires i < |records| && Increasing(records) && ModesOf(dirModes, records, i)
    ensures records[i].entry.Dir? ==> ModesOf(dirModes + [DirMode(records[i].path, records[i].entry.mode)], records, i + 1)
    ensures records[i].entry.File? ==> ModesOf(dirModes, records, i + 1)
  {
    hide LexLe;
    forall d: DirMode ensures d in dirModes ==> d.path != records[i].path {
      if d in dirModes {
        var j: nat :| j < i && records[j] == Record(d.path, Dir(d.mode));
      }
    }
    forall k | 0 <= k < |dirModes| ensures dirModes[k].path != records[i].path {
      assert dirModes[k] in dirModes;
    }
    forall d: DirMode ensures (exists j: nat :: j < i + 1 && records[j] == Record(d.path, Dir(d.mode)))
      <==> d in dirModes || records[i] == Record(d.path, Dir(d.mode))
    {
      if d in dirModes {
        var j: nat :| j < i && records[j] == Record(d.path, Dir(d.mode));
        assert j < i + 1;
      }
      if records[i] == Record(d.path, Dir(d.mode)) { assert i < i + 1; }
    }
  }

  // The whole round trip: copying what a scan lists and scanning the copy lists the same again.
  method CopyAndScan(source: Tree) returns (scan: seq<Record>, again: Option<seq<Record>>)
    requires ValidTree(source)
    ensures IsScan(scan, source) && again == Some(scan)
  {
    hide *;
    scan := ScanTree(source);
    StaysFaithful(source, scan);
    var copy := CopyTree(n => source, scan, source);
    var rescan := ScanTree(copy.value);
    ScansEqualExact(scan, rescan, source, copy.value);
    again := Some(rescan);
  }

  lemma StaysFaithful(source: Tree, scan: seq<Record>)
    requires ValidTree(source) && IsScan(scan, source)
    ensures Faithful(n => source, scan, source)
  {
    hide ValidTree, IsScan;
  }

  // ----- applying modes -----

  // Everything copied, no mode applied yet.
  ghost predicate Filled(copy: Tree, dirModes: seq<DirMode>, t: Tree) {
    && ValidTree(t) && copy.Keys == t.Keys
    && (forall p | p in t :: copy[p] == Made(t[p]))
    && (forall d :: d in dirModes <==> d.path in t && t[d.path] == Dir(d.mode))
  }

  lemma AllBuilt(copy: Tree, dirModes: seq<DirMode>, records: seq<Record>, t: Tree)
    requires Built(copy, dirModes, records, |records|, t)
    ensures Filled(copy, dirModes, t)
  {
    hide Increasing, Parent;
    forall p ensures p in copy <==> p in t {
      if p in t { assert Record(p, t[p]) in records; }
      if p in copy && p != "" {
        var j: nat :| j < |records| && records[j].path == p;
        assert records[j] in records;
      }
    }
    forall p | p in t ensures copy[p] == Made(t[p]) {
      assert Record(p, t[p]) in records;
    }
    forall d ensures d in dirModes <==> d.path in t && t[d.path] == Dir(d.mode) {
      assert d in dirModes <==> Record(d.path, Dir(d.mode)) in records;
    }
  }

  predicate Done(sorted: seq<DirMode>, i: nat, p: string)
    requires i <= |sorted|
  {
    exists k: nat :: k < i && sorted[k].path == p
  }

  // The first i modes have been applied.
  ghost predicate ModesApplied(copy: Tree, sorted: seq<DirMode>, i: nat, t: Tree) {
    && i <= |sorted| && Shrinking(sorted) && ValidTree(t) && copy.Keys == t.Keys
    && (forall d :: d in sorted <==> d.path in t && t[d.path] == Dir(d.mode))
    && (forall p | p in t :: copy[p] == if Done(sorted, i, p) then t[p] else Made(t[p]))
  }

  lemma NoModesYet(copy: Tree, dirModes: seq<DirMode>, sorted: seq<DirMode>, t: Tree)
    requires Filled(copy, dirModes, t) && Shrinking(sorted) && forall d :: d in sorted <==> d in dirModes
    ensures ModesApplied(copy, sorted, 0, t)
  {
    hide ValidTree, Shrinking;
  }

  // A directory whose mode is still to be applied, and everything above it, can be entered.
  lemma {:induction false} StillReachable(copy: Tree, sorted: seq<DirMode>, i: nat, t: Tree, path: string)
    requires ModesApplied(copy, sorted, i, t) && path in t
    requires forall k: nat | k < i :: |sorted[k].path| >= |path|
    ensures Reachable(copy, path)
    decreases |path|
  {
    hide Parent;
    if path != "" {
      var above := Parent(path);
      assert !Done(sorted, i, above);
      StillReachable(copy, sorted, i, t, above);
    }
  }

  lemma ApplyMode(copy: Tree, sorted: seq<DirMode>, i: nat, t: Tree)
    requires ModesApplied(copy, sorted, i, t) && i < |sorted|
    ensures ModesApplied(SetMode(copy, sorted[i].path, sorted[i].mode), sorted, i + 1, t)
  {
    hide Parent, Reachable;
    var d := sorted[i];
    assert d in sorted;
    StillReachable(copy, sorted, i, t, d.path);
    var next := SetMode(copy, d.path, d.mode);
    forall p | p in t ensures next[p] == if Done(sorted, i + 1, p) then t[p] else Made(t[p]) {
      if p == d.path {
        assert i < i + 1;
        assert Done(sorted, i + 1, p);
      } else {
        DoneStep(sorted, i, p);
      }
    }
  }

  lemma DoneStep(sorted: seq<DirMode>, i: nat, p: string)
    requires i < |sorted| && sorted[i].path != p
    ensures Done(sorted, i + 1, p) <==> Done(sorted, i, p)
  {
    if Done(sorted, i, p) {
      var k: nat :| k < i && sorted[k].path == p;
      assert k < i + 1;
    }
  }

  lemma AllApplied(copy: Tree, sorted: seq<DirMode>, t: Tree)
    requires ModesApplied(copy, sorted, |sorted|, t)
    ensures copy == t
  {
    hide Parent, Shrinking;
    forall p | p in t ensures copy[p] == t[p] {
      if t[p].Dir? {
        assert DirMode(p, t[p].mode) in sorted;
        var k: nat :| k < |sorted| && sorted[k] == DirMode(p, t[p].mode);
        assert Done(sorted, |sorted|, p);
      }
    }
  }

  // Why the order matters: once a directory cannot be entered, no mode below it can be applied.
  lemma {:induction false} ClosedDirectoryBlocks(t: Tree, dir: string, mode: nat, path: string, below: nat)
    requires dir in t && t[dir].Dir? && Reachable(t, dir) && !Searchable(mode)
    requires Above(dir, path)
    ensures SetMode(SetMode(t, dir, mode), path, below) == SetMode(t, dir, mode)
  {
    NotReachable(SetMode(t, dir, mode), dir, path);
  }

  predicate Above(dir: string, path: string)
    decreases |path|
  {
    path != "" && (Parent(path) == dir || Above(dir, Parent(path)))
  }

  lemma {:induction false} NotReachable(t: Tree, dir: string, path: string)
    requires dir in t && t[dir].Dir? && !Searchable(t[dir].mode) && Above(dir, path)
    ensures !Reachable(t, path)
    decreases |path|
  {
    hide Parent, Searchable;
    if Parent(path) != dir { NotReachable(t, dir, Parent(path)); }
  }
}
