// Scanning a directory tree into a list of records, one an entry, by path.
module TreeScan {
  import opened Text
  import opened Order

  // content stands for a file's size and digest.
  datatype Entry = Dir(mode: nat) | File(mode: nat, content: string)

  // Entries by path relative to the root; the root itself is "".
  type Tree = map<string, Entry>

  datatype Record = Record(path: string, entry: Entry)

  // The directory a path is in.
  function Parent(path: string): (p: string)
    ensures p <= path
    ensures path != "" ==> |p| < |path|
    decreases |path|
  {
    if path == "" || path[|path| - 1] == '/' then (if path == "" then "" else path[..|path| - 1])
    else if '/' !in path then ""
    else Parent(path[..|path| - 1])
  }

  // A path is its directory, a slash and a name; at the top it is the name alone.
  lemma ParentExact(dir: string, name: string)
    requires '/' !in name && name != ""
    ensures Parent(dir + "/" + name) == dir && Parent(name) == ""
    decreases |name|
  {
    var path := dir + "/" + name;
    assert path[|path| - 1] == name[|name| - 1] && name[|name| - 1] in name;
    assert '/' in path by { assert path[|dir|] == '/'; }
    if |name| == 1 {
      assert path[..|path| - 1] == dir + "/";
      assert (dir + "/")[..|dir|] == dir;
    } else {
      ParentExact(dir, name[..|name| - 1]);
      assert path[..|path| - 1] == dir + "/" + name[..|name| - 1];
    }
  }

  ghost predicate ValidTree(t: Tree) {
    && "" in t && t[""].Dir?
    && forall p | p in t && p != "" :: Parent(p) in t && t[Parent(p)].Dir?
  }

  // ----- scanning -----

  ghost predicate Increasing(records: seq<Record>) {
    forall i, j | 0 <= i < j < |records| :: LexLe(records[i].path, records[j].path) && records[i].path != records[j].path
  }

  ghost predicate Lists(records: seq<Record>, t: Tree) {
    forall r :: r in records <==> r.path in t && t[r.path] == r.entry
  }

  // The scan of a tree: every entry once, by path.
  ghost predicate IsScan(records: seq<Record>, t: Tree) {
    Increasing(records) && Lists(records, t)
  }

  // A tree has one scan, so comparing scans is comparing trees.
  lemma {:induction false} ScanUnique(a: seq<Record>, b: seq<Record>)
    requires Increasing(a) && Increasing(b) && forall r :: r in a <==> r in b
    ensures a == b
    decreases |a|
  {
    hide LexLe;
    assert |b| > 0 ==> b[0] in b;
    if |a| == 0 {
    } else {
      assert a[0] in b;
      assert b[0] in a;
      SameFirst(a, b);
      forall r ensures r in a[1..] <==> r in b[1..] {
        InTail(a, r);
        InTail(b, r);
      }
      ScanUnique(a[1..], b[1..]);
      assert a == [a[0]] + a[1..] && b == [b[0]] + b[1..];
    }
  }

  lemma SameFirst(a: seq<Record>, b: seq<Record>)
    requires |a| > 0 && |b| > 0 && Increasing(a) && Increasing(b) && a[0] in b && b[0] in a
    ensures a[0] == b[0]
  {
    hide LexLe;
    var i :| 0 <= i < |b| && b[i] == a[0];
    var j :| 0 <= j < |a| && a[j] == b[0];
    if i > 0 && j > 0 { LexAntisymmetric(a[0].path, b[0].path); }
  }

  lemma InTail(a: seq<Record>, r: Record)
    requires |a| > 0 && Increasing(a)
    ensures r in a[1..] <==> r in a && r != a[0]
  {
    hide LexLe;
    assert a == [a[0]] + a[1..];
    forall i | 0 <= i < |a[1..]| ensures a[1..][i] != a[0] {
      assert a[1..][i] == a[i + 1];
    }
  }

  lemma ScansEqualExact(a: seq<Record>, b: seq<Record>, t: Tree, u: Tree)
    requires IsScan(a, t) && IsScan(b, u)
    ensures a == b <==> t == u
  {
    if t == u { ScanUnique(a, b); }
    if a == b {
      forall p ensures p in t <==> p in u {
        if p in t { assert Record(p, t[p]) in a; }
        if p in u { assert Record(p, u[p]) in b; }
      }
      forall p | p in t ensures t[p] == u[p] {
        assert Record(p, t[p]) in a;
      }
    }
  }

  function Children(t: Tree, dir: string): set<string> {
    set p | p in t && p != "" && Parent(p) == dir
  }

  // The traversal keeps a stack of directories still to be read.
  ghost predicate Pending(stack: seq<string>, t: Tree, read: set<string>) {
    && (forall d :: d in stack <==> d in t && t[d].Dir? && d !in read && (d == "" || Parent(d) in read))
    && (forall i, j | 0 <= i < j < |stack| :: stack[i] != stack[j])
    && (forall d | d in read :: d == "" || Parent(d) in read)
  }

  ghost predicate Recorded(records: seq<Record>, t: Tree, read: set<string>) {
    && (forall r :: r in records <==> r.path in t && t[r.path] == r.entry && r.path != "" && Parent(r.path) in read)
    && (forall i, j | 0 <= i < j < |records| :: records[i].path != records[j].path)
  }

  method ScanTree(t: Tree) returns (records: seq<Record>)
    requires ValidTree(t)
    ensures IsScan(records, t)
  {
    hide Parent;
    var stack := [""];
    ghost var read: set<string> := {};
    records := [];
    while |stack| > 0
      invariant Pending(stack, t, read) && Recorded(records, t, read) && read <= t.Keys
      decreases t.Keys - read
    {
      var dir := stack[|stack| - 1];
      ghost var below := stack[..|stack| - 1];
      assert dir in stack;
      var found, dirs := ReadDirectory(t, dir);
      PushStep(stack, t, read, dir, dirs);
      RecordStep(records, t, read, dir, found);
      stack := stack[..|stack| - 1] + dirs;
      records := records + found;
      read := read + {dir};
    }
    AllRead(t, read, stack);
    RootAdded(records, t, read);
    records := SortByPath(records + [Record("", t[""])]);
  }

  // One directory, in any order: its entries, and which of them are directories.
  method ReadDirectory(t: Tree, dir: string) returns (found: seq<Record>, dirs: seq<string>)
    ensures forall r :: r in found <==> r.path in Children(t, dir) && t[r.path] == r.entry
    ensures forall i, j | 0 <= i < j < |found| :: found[i].path != found[j].path
    ensures forall d :: d in dirs <==> d in Children(t, dir) && t[d].Dir?
    ensures forall i, j | 0 <= i < j < |dirs| :: dirs[i] != dirs[j]
  {
    found, dirs := [], [];
    var names := Children(t, dir);
    assert forall p | p in names :: p in t;
    hide Children;
    var todo := names;
    while todo != {}
      invariant todo <= names == Children(t, dir)
      invariant forall p | p in names :: p in t
      invariant forall r :: r in found <==> r.path in names - todo && t[r.path] == r.entry
      invariant forall i, j | 0 <= i < j < |found| :: found[i].path != found[j].path
      invariant forall d :: d in dirs <==> d in names - todo && t[d].Dir?
      invariant forall i, j | 0 <= i < j < |dirs| :: dirs[i] != dirs[j]
      decreases todo
    {
      var p :| p in todo;
      assert forall r | r in found :: r.path != p;
      found := found + [Record(p, t[p])];
      if t[p].Dir? { dirs := dirs + [p]; }
      todo := todo - {p};
    }
  }

  lemma PushStep(stack: seq<string>, t: Tree, read: set<string>, dir: string, dirs: seq<string>)
    requires Pending(stack, t, read) && |stack| > 0 && dir == stack[|stack| - 1]
    requires forall d :: d in dirs <==> d in Children(t, dir) && t[d].Dir?
    requires forall i, j | 0 <= i < j < |dirs| :: dirs[i] != dirs[j]
    ensures dir in t && dir !in read
    ensures Pending(stack[..|stack| - 1] + dirs, t, read + {dir})
  {
    hide Parent;
    var below := stack[..|stack| - 1];
    assert stack == below + [dir];
    assert dir in stack && forall i | 0 <= i < |below| :: below[i] == stack[i];
    assert dir !in below;
    forall d | d in dirs ensures d !in stack {
      assert d in Children(t, dir) && Parent(d) == dir && dir !in read && d != "";
      assert d in stack ==> d == "" || Parent(d) in read;
    }
    forall i, j | 0 <= i < j < |below + dirs| ensures (below + dirs)[i] != (below + dirs)[j] {
      if i < |below| <= j { assert below[i] in stack && dirs[j - |below|] in dirs; }
    }
    ParentDiffers(dir);
    forall d ensures d in below + dirs <==> d in t && t[d].Dir? && d !in read + {dir} && (d == "" || Parent(d) in read + {dir}) {
      assert d in stack <==> d in below || d == dir;
      if d in dirs { ParentDiffers(d); }
    }
  }

  lemma ParentDiffers(p: string)
    ensures p != "" ==> Parent(p) != p
  {
  }

  lemma RecordStep(records: seq<Record>, t: Tree, read: set<string>, dir: string, found: seq<Record>)
    requires Recorded(records, t, read) && dir !in read
    requires forall r :: r in found <==> r.path in Children(t, dir) && t[r.path] == r.entry
    requires forall i, j | 0 <= i < j < |found| :: found[i].path != found[j].path
    ensures Recorded(records + found, t, read + {dir})
  {
    hide Parent;
    var all := records + found;
    forall i, j | 0 <= i < j < |all| ensures all[i].path != all[j].path {
      if i < |records| <= j {
        assert all[i] == records[i] && all[j] == found[j - |records|];
        assert records[i] in records && found[j - |records|] in found;
      }
    }
  }

  // With nothing left on the stack every directory was read.
  lemma AllRead(t: Tree, read: set<string>, stack: seq<string>)
    requires ValidTree(t) && Pending(stack, t, read) && stack == []
    ensures forall d | d in t && t[d].Dir? :: d in read
  {
    forall d | d in t && t[d].Dir? ensures d in read {
      DirRead(t, read, stack, d);
    }
  }

  lemma {:induction false} DirRead(t: Tree, read: set<string>, stack: seq<string>, d: string)
    requires ValidTree(t) && Pending(stack, t, read) && stack == [] && d in t && t[d].Dir?
    ensures d in read
    decreases |d|
  {
    hide Parent;
    if d != "" { DirRead(t, read, stack, Parent(d)); }
    assert d !in stack;
  }

  lemma RootAdded(records: seq<Record>, t: Tree, read: set<string>)
    requires ValidTree(t) && Recorded(records, t, read) && forall d | d in t && t[d].Dir? :: d in read
    ensures Lists(records + [Record("", t[""])], t)
    ensures forall i, j | 0 <= i < j < |records| + 1 :: (records + [Record("", t[""])])[i].path != (records + [Record("", t[""])])[j].path
  {
    hide Parent;
    var all := records + [Record("", t[""])];
    forall i | 0 <= i < |records| ensures all[i].path != "" {
      assert records[i] in records;
    }
  }

  // ----- sorting records by path -----

  function InsertByPath(r: Record, sorted: seq<Record>): seq<Record> {
    if |sorted| == 0 || LexLe(r.path, sorted[0].path) then [r] + sorted else [sorted[0]] + InsertByPath(r, sorted[1..])
  }

  lemma {:induction false} InsertKeepsOrder(r: Record, sorted: seq<Record>)
    requires Increasing(sorted) && forall x | x in sorted :: x.path != r.path
    ensures Increasing(InsertByPath(r, sorted))
    ensures forall x :: x in InsertByPath(r, sorted) <==> x == r || x in sorted
    decreases |sorted|
  {
    hide LexLe;
    if |sorted| > 0 {
      assert sorted == [sorted[0]] + sorted[1..];
      assert sorted[0] in sorted;
      if LexLe(r.path, sorted[0].path) {
        forall j | 0 < j < |sorted| ensures LexLe(r.path, sorted[j].path) && r.path != sorted[j].path {
          LexTransitive(r.path, sorted[0].path, sorted[j].path);
          assert sorted[j] in sorted;
        }
      } else {
        InsertKeepsOrder(r, sorted[1..]);
        LexTotal(r.path, sorted[0].path);
        var rest := InsertByPath(r, sorted[1..]);
        forall j | 0 <= j < |rest| ensures LexLe(sorted[0].path, rest[j].path) && sorted[0].path != rest[j].path {
          assert rest[j] in rest;
          if rest[j] != r {
            var k :| 0 <= k < |sorted[1..]| && sorted[1..][k] == rest[j];
            assert sorted[k + 1] == rest[j];
          }
        }
      }
    }
  }

  method SortByPath(records: seq<Record>) returns (sorted: seq<Record>)
    requires forall i, j | 0 <= i < j < |records| :: records[i].path != records[j].path
    ensures Increasing(sorted) && forall r :: r in sorted <==> r in records
  {
    hide LexLe, InsertByPath;
    sorted := [];
    for i := 0 to |records|
      invariant Increasing(sorted) && forall r :: r in sorted <==> r in records[..i]
    {
      assert records[..i + 1] == records[..i] + [records[i]];
      InsertKeepsOrder(records[i], sorted);
      sorted := InsertByPath(records[i], sorted);
    }
    assert records[..|records|] == records;
  }
}
