// Returning the state-owned model selection to the template's, whatever overlays were applied before.
module ModelsRollback {
  import opened Text
  import opened FallbackMerge
  import opened ModelsOverlay
  import opened ModelsState

  // ----- one owned path -----

  // The template's chain: its dictionaries, if it has a chain at all.
  function TemplateChain(template: Config): Option<seq<Entry>> {
    var v := Get(template, CHAIN_PATH);
    if v.None? || v.value.Null? then None
    else Some(if v.value.List? then EntriesOf(v.value.items) else [])
  }

  function EntriesOf(items: seq<Json>): seq<Entry>
    decreases |items|
  {
    if |items| == 0 then []
    else EntriesOf(items[..|items| - 1]) + if items[|items| - 1].Dict? then [items[|items| - 1].fields] else []
  }

  // The dictionaries of a list, in order.
  lemma {:induction false} EntriesOfConcat(items: seq<Json>, more: seq<Json>)
    ensures EntriesOf(items + more) == EntriesOf(items) + EntriesOf(more)
    decreases |more|
  {
    if |more| > 0 {
      var init, last := more[..|more| - 1], more[|more| - 1];
      EntriesOfConcat(items, init);
      assert items + more == (items + init) + [last];
      assert (items + more)[..|items + more| - 1] == items + init;
    } else {
      assert items + more == items;
    }
  }

  lemma {:induction false} EntriesOfExact(items: seq<Json>)
    ensures (forall item | item in items :: item.Dict?) ==>
      |EntriesOf(items)| == |items| && forall i | 0 <= i < |items| :: EntriesOf(items)[i] == items[i].fields
    ensures (forall item | item in items :: !item.Dict?) ==> EntriesOf(items) == []
    decreases |items|
  {
    if |items| > 0 {
      EntriesOfExact(items[..|items| - 1]);
      assert items == items[..|items| - 1] + [items[|items| - 1]];
    }
  }

  // The template has no chain exactly when the key is missing or null; a value that is no list counts as an
  // empty chain.
  lemma TemplateChainExact(template: Config)
    ensures match Get(template, ["fallback_providers"])
      case None => TemplateChain(template) == None
      case Some(Null) => TemplateChain(template) == None
      case Some(List(items)) => TemplateChain(template) == Some(EntriesOf(items))
      case Some(_) => TemplateChain(template) == Some([])
  {
    hide Get, EntriesOf;
  }

  // What a rollback wants at an owned path: a value, or absence.
  function Target(m: Config, template: Config, path: Path): Option<Json>
    requires |path| > 0
  {
    if path == CHAIN_PATH then
      var chain := TemplateChain(template);
      if chain.None? then None else Some(List(AsJson(RestoredChain(chain.value, Existing(m, path)))))
    else Get(template, path)
  }

  function RestorePath(m: Config, template: Config, path: Path): Config
    requires |path| > 0
  {
    var v := Target(m, template, path);
    if v.Some? then SetNested(m, path, v.value) else DelNested(m, path)
  }

  // Whether the step reports a change: the value read differs, or a key is there to delete.
  predicate StepChanges(m: Config, template: Config, path: Path)
    requires |path| > 0
  {
    var v := Target(m, template, path);
    if v.Some? then Read(m, path) != v.value else Get(m, path).Some?
  }

  function RestorePaths(m: Config, template: Config, paths: seq<Path>): Config
    requires forall p | p in paths :: |p| > 0
    decreases |paths|
  {
    if |paths| == 0 then m
    else
      assert forall p | p in paths[..|paths| - 1] :: p in paths;
      RestorePath(RestorePaths(m, template, paths[..|paths| - 1]), template, paths[|paths| - 1])
  }

  function Rollback(m: Config, template: Config): Config
  {
    RestorePaths(m, template, OwnedPaths())
  }

  // Every section on the way to the last key is a dictionary.
  predicate HasSections(m: Config, path: Path)
    decreases |path|
  {
    |path| <= 1 || (path[0] in m && m[path[0]].Dict? && HasSections(m[path[0]].fields, path[1..]))
  }

  // The template holds null at the path and the runtime nothing.
  predicate Unrestorable(m: Config, template: Config, path: Path)
    requires |path| > 0
  {
    path != CHAIN_PATH && Get(template, path) == Some(Null) && Get(m, path) == None
  }

  // There, sections missing on the way are still created, which is not reported.
  predicate Reshapes(m: Config, template: Config, path: Path)
    requires |path| > 0
  {
    Unrestorable(m, template, path) && !HasSections(m, path)
  }

  lemma {:induction false} SetNullThenGet(m: Config, path: Path)
    requires |path| > 0
    ensures Get(SetNested(m, path, Null), path) == if Get(m, path).None? then None else Some(Null)
    decreases |path|
  {
    if |path| > 1 {
      SetNullThenGet(Section(m, path[0]), path[1..]);
      GetMissing(path[1..]);
    }
  }

  lemma {:induction false} SetNullSame(m: Config, path: Path)
    requires |path| > 0 && Get(m, path) == None && HasSections(m, path)
    ensures SetNested(m, path, Null) == m
    decreases |path|
  {
    if |path| > 1 { SetNullSame(m[path[0]].fields, path[1..]); }
  }

  lemma {:induction false} DelAbsent(m: Config, path: Path)
    requires |path| > 0 && Get(m, path) == None
    ensures DelNested(m, path) == m
    decreases |path|
  {
    if |path| > 1 && path[0] in m && m[path[0]].Dict? { DelAbsent(m[path[0]].fields, path[1..]); }
  }

  lemma ChainIsNotNull(m: Config, template: Config)
    ensures |CHAIN_PATH| == 1 && Target(m, template, CHAIN_PATH) != Some(Null)
  {
    hide Get, RestoredChain, AsJson;
  }

  // After its step a path reads as wanted, unless the template holds null and the runtime nothing.
  lemma StepGets(m: Config, template: Config, path: Path)
    requires |path| > 0
    ensures var after := Get(RestorePath(m, template, path), path);
      && (!Unrestorable(m, template, path) ==> after == Target(m, template, path))
      && (Unrestorable(m, template, path) ==> after == None)
      && (StepChanges(m, template, path) ==> after != Get(m, path))
  {
    ChainIsNotNull(m, template);
    UnrestorableIs(m, template, path);
    hide Get, SetNested, DelNested, Target, Unrestorable;
    var v := Target(m, template, path);
    if v.None? { DelThenGet(m, path); }
    else if v.value == Null { SetNullThenGet(m, path); }
    else { SetThenGet(m, path, v.value); }
  }

  lemma UnrestorableIs(m: Config, template: Config, path: Path)
    requires |path| > 0
    ensures Unrestorable(m, template, path) <==> Target(m, template, path) == Some(Null) && Get(m, path) == None
  {
    hide Get, RestoredChain, AsJson;
  }

  lemma StepElsewhere(m: Config, template: Config, path: Path, q: Path)
    requires |path| > 0 && |q| > 0 && Apart(path, q)
    ensures Get(RestorePath(m, template, path), q) == Get(m, q)
  {
    hide Get, SetNested, DelNested, Target, Apart;
    var v := Target(m, template, path);
    if v.None? { DelElsewhere(m, path, q); } else { SetElsewhere(m, path, v.value, q); }
  }

  // A step that neither reports a change nor reshapes leaves the configuration alone.
  lemma StepSame(m: Config, template: Config, path: Path)
    requires |path| > 0 && !StepChanges(m, template, path) && !Reshapes(m, template, path)
    ensures RestorePath(m, template, path) == m
  {
    UnrestorableIs(m, template, path);
    hide Get, SetNested, DelNested, Target, Unrestorable, HasSections;
    var v := Target(m, template, path);
    if v.None? { DelAbsent(m, path); }
    else if Get(m, path).Some? { SetSame(m, path, v.value); }
    else { SetNullSame(m, path); }
  }

  // ----- sections -----

  lemma {:induction false} SetMakesSections(m: Config, path: Path, value: Json)
    requires |path| > 0
    ensures HasSections(SetNested(m, path, value), path)
    decreases |path|
  {
    if |path| > 1 { SetMakesSections(Section(m, path[0]), path[1..], value); }
  }

  lemma {:induction false} SetKeepsSections(m: Config, path: Path, value: Json, q: Path)
    requires |path| > 0 && |q| > 0 && Apart(path, q) && HasSections(m, q)
    ensures HasSections(SetNested(m, path, value), q)
    decreases |path|
  {
    if path[0] == q[0] {
      ApartTail(path, q);
      SetKeepsSections(Section(m, path[0]), path[1..], value, q[1..]);
    }
  }

  lemma {:induction false} DelKeepsSections(m: Config, path: Path, q: Path)
    requires |path| > 0 && |q| > 0 && Apart(path, q) && HasSections(m, q)
    ensures HasSections(DelNested(m, path), q)
    decreases |path|
  {
    if path[0] == q[0] {
      ApartTail(path, q);
      if path[0] in m && m[path[0]].Dict? { DelKeepsSections(m[path[0]].fields, path[1..], q[1..]); }
    }
  }

  lemma StepKeepsSections(m: Config, template: Config, path: Path, q: Path)
    requires |path| > 0 && |q| > 0 && Apart(path, q) && HasSections(m, q)
    ensures HasSections(RestorePath(m, template, path), q)
  {
    hide SetNested, DelNested, Target, Apart, HasSections;
    var v := Target(m, template, path);
    if v.Some? { SetKeepsSections(m, path, v.value, q); } else { DelKeepsSections(m, path, q); }
  }

  // ----- all owned paths -----

  lemma {:induction false} RestoreElsewhere(m: Config, template: Config, paths: seq<Path>, q: Path)
    requires |q| > 0 && (forall p | p in paths :: |p| > 0) && forall i | 0 <= i < |paths| :: Apart(paths[i], q)
    ensures Get(RestorePaths(m, template, paths), q) == Get(m, q)
    ensures HasSections(m, q) ==> HasSections(RestorePaths(m, template, paths), q)
    decreases |paths|
  {
    hide Get, RestorePath, Apart, HasSections;
    if |paths| > 0 {
      var init := paths[..|paths| - 1];
      assert forall p | p in init :: p in paths;
      RestoreElsewhere(m, template, init, q);
      var before := RestorePaths(m, template, init);
      StepElsewhere(before, template, paths[|paths| - 1], q);
      if HasSections(m, q) { StepKeepsSections(before, template, paths[|paths| - 1], q); }
    }
  }

  // What is wanted at a path, and whether its step changes anything, depends only on what is there.
  lemma DependsOnPath(m: Config, n: Config, template: Config, path: Path)
    requires |path| > 0 && Get(m, path) == Get(n, path)
    ensures Target(m, template, path) == Target(n, template, path)
    ensures StepChanges(m, template, path) == StepChanges(n, template, path)
    ensures Unrestorable(m, template, path) == Unrestorable(n, template, path)
  {
    hide Get, RestoredChain, AsJson, TemplateChain;
  }

  lemma ApartFrom(paths: seq<Path>, i: nat)
    requires AllApart(paths) && i < |paths|
    ensures |paths[i]| > 0 && AllApart(paths[..|paths| - 1]) && AllApart(paths[..i])
    ensures forall j | 0 <= j < |paths| && j != i :: Apart(paths[j], paths[i])
  {
    hide Apart;
    assert paths[i] in paths;
    assert forall p | p in paths[..|paths| - 1] :: p in paths;
    assert forall p | p in paths[..i] :: p in paths;
    forall j | 0 <= j < |paths| && j != i ensures Apart(paths[j], paths[i]) {
      ApartSymmetric(paths[i], paths[j]);
    }
  }

  lemma PathsOf(paths: seq<Path>)
    requires AllApart(paths)
    ensures forall p | p in paths :: |p| > 0
  {
  }

  // After all steps a path is as its own step leaves it.
  lemma {:induction false} RestoredAt(m: Config, template: Config, paths: seq<Path>, i: nat)
    requires AllApart(paths) && i < |paths| && (forall p | p in paths :: |p| > 0)
    ensures |paths[i]| > 0
    ensures var after := Get(RestorePaths(m, template, paths), paths[i]);
      && (!Unrestorable(m, template, paths[i]) ==> after == Target(m, template, paths[i]))
      && (Unrestorable(m, template, paths[i]) ==> after == None)
      && (StepChanges(m, template, paths[i]) ==> after != Get(m, paths[i]))
    ensures Reshapes(m, template, paths[i]) ==> RestorePaths(m, template, paths) != m
    decreases |paths|
  {
    hide Get, RestorePath, Apart, AllApart, Target, StepChanges, Unrestorable, HasSections;
    var n := |paths| - 1;
    var init := paths[..n];
    ApartFrom(paths, i);
    ApartFrom(paths, n);
    PathsOf(init);
    var before := RestorePaths(m, template, init);
    if i < n {
      RestoredAt(m, template, init, i);
      StepElsewhere(before, template, paths[n], paths[i]);
      if Reshapes(m, template, paths[i]) {
        ReshapedAt(m, template, init, i);
        StepKeepsSections(before, template, paths[n], paths[i]);
      }
    } else {
      RestoreElsewhere(m, template, init, paths[n]);
      DependsOnPath(m, before, template, paths[n]);
      StepGets(before, template, paths[n]);
      if Reshapes(m, template, paths[n]) { StepMakesSections(before, template, paths[n]); }
    }
  }

  lemma StepMakesSections(m: Config, template: Config, path: Path)
    requires |path| > 0 && Unrestorable(m, template, path)
    ensures HasSections(RestorePath(m, template, path), path)
  {
    UnrestorableIs(m, template, path);
    hide SetNested, Target, HasSections, Unrestorable;
    SetMakesSections(m, path, Null);
  }

  lemma {:induction false} ReshapedAt(m: Config, template: Config, paths: seq<Path>, i: nat)
    requires AllApart(paths) && i < |paths| && (forall p | p in paths :: |p| > 0) && Unrestorable(m, template, paths[i])
    ensures HasSections(RestorePaths(m, template, paths), paths[i])
    decreases |paths|
  {
    hide Get, RestorePath, Apart, AllApart, Target, Unrestorable, HasSections;
    var n := |paths| - 1;
    var init := paths[..n];
    ApartFrom(paths, i);
    ApartFrom(paths, n);
    PathsOf(init);
    var before := RestorePaths(m, template, init);
    if i < n {
      ReshapedAt(m, template, init, i);
      StepKeepsSections(before, template, paths[n], paths[i]);
    } else {
      RestoreElsewhere(m, template, init, paths[n]);
      DependsOnPath(m, before, template, paths[n]);
      StepMakesSections(before, template, paths[n]);
    }
  }

  // Nothing to report and nothing to reshape leaves everything as it was.
  lemma {:induction false} RestoreSame(m: Config, template: Config, paths: seq<Path>)
    requires forall p | p in paths :: |p| > 0 && !StepChanges(m, template, p) && !Reshapes(m, template, p)
    ensures RestorePaths(m, template, paths) == m
    decreases |paths|
  {
    hide RestorePath, StepChanges, Reshapes;
    if |paths| > 0 {
      var init, last := paths[..|paths| - 1], paths[|paths| - 1];
      assert last in paths && forall p | p in init :: p in paths;
      RestoreSame(m, template, init);
      StepSame(m, template, last);
    }
  }

  // ----- the program -----

  method RestoreTemplateModelsDefaults(config: Config, template: Config) returns (restored: Config, changed: bool)
    ensures restored == Rollback(config, template)
    ensures changed <==> exists p | p in OwnedPaths() :: StepChanges(config, template, p)
  {
    var paths := OwnedPaths();
    hide *;
    OwnedPathsApart();
    restored, changed := config, false;
    assert paths[..0] == [];
    NoPaths(config, template);
    for i := 0 to |paths|
      invariant forall p | p in paths[..i] :: |p| > 0
      invariant restored == RestorePaths(config, template, paths[..i])
      invariant changed <==> exists p | p in paths[..i] :: StepChanges(config, template, p)
    {
      var path := paths[i];
      assert paths[..i + 1] == paths[..i] + [path];
      assert path in paths;
      OneMorePath(config, template, paths, i);
      var v := Target(restored, template, path);
      StepIs(restored, template, path);
      if v.Some? {
        if Read(restored, path) != v.value { changed := true; }
        restored := SetNested(restored, path, v.value);
      } else {
        if Get(restored, path).Some? { changed := true; }
        restored := DelNested(restored, path);
      }
    }
    assert paths[..|paths|] == paths;
    RollbackIs(config, template);
  }

  lemma NoPaths(m: Config, template: Config)
    ensures RestorePaths(m, template, []) == m
  {
  }

  lemma RollbackIs(m: Config, template: Config)
    ensures Rollback(m, template) == RestorePaths(m, template, OwnedPaths())
  {
    hide RestorePaths;
  }

  lemma StepIs(m: Config, template: Config, path: Path)
    requires |path| > 0
    ensures var v := Target(m, template, path);
      && RestorePath(m, template, path) == (if v.Some? then SetNested(m, path, v.value) else DelNested(m, path))
      && StepChanges(m, template, path) == (if v.Some? then Read(m, path) != v.value else Get(m, path).Some?)
  {
    hide Target, SetNested, DelNested, Read, Get;
  }

  lemma OneMorePath(m: Config, template: Config, paths: seq<Path>, i: nat)
    requires AllApart(paths) && i < |paths| && (forall p | p in paths :: |p| > 0) && forall p | p in paths[..i] :: |p| > 0
    ensures forall p | p in paths[..i + 1] :: |p| > 0
    ensures RestorePaths(m, template, paths[..i + 1]) == RestorePath(RestorePaths(m, template, paths[..i]), template, paths[i])
    ensures StepChanges(RestorePaths(m, template, paths[..i]), template, paths[i]) == StepChanges(m, template, paths[i])
  {
    hide Get, RestorePath, Apart, AllApart, StepChanges, HasSections;
    ApartFrom(paths, i);
    assert paths[..i + 1] == paths[..i] + [paths[i]];
    assert paths[..i + 1][..i] == paths[..i];
    RestoreElsewhere(m, template, paths[..i], paths[i]);
    DependsOnPath(m, RestorePaths(m, template, paths[..i]), template, paths[i]);
  }

  // ----- what a rollback does -----

  // The configuration changed exactly when a change is reported, or the template's null at some path made
  // a missing section.
  lemma ChangedExact(m: Config, template: Config)
    ensures Rollback(m, template) != m <==>
      exists p | p in OwnedPaths() :: StepChanges(m, template, p) || Reshapes(m, template, p)
  {
    hide *;
    OwnedPathsApart();
    RollbackIs(m, template);
    var paths := OwnedPaths();
    if p :| p in paths && (StepChanges(m, template, p) || Reshapes(m, template, p)) {
      var i :| 0 <= i < |paths| && paths[i] == p;
      RestoredAt(m, template, paths, i);
    } else {
      RestoreSame(m, template, paths);
    }
  }

  // Any number of overlays.
  function Overlays(m: Config, documents: seq<Models>): Config
    decreases |documents|
  {
    if |documents| == 0 then m
    else DoWrites(Overlays(m, documents[..|documents| - 1]), WritesOf(documents[|documents| - 1]))
  }

  lemma {:induction false} OverlaysElsewhere(m: Config, documents: seq<Models>, q: Path)
    requires forall d | d in documents :: OfKnownTasks(d)
    requires |q| > 0 && forall p | p in OwnedPaths() :: Apart(p, q)
    ensures Get(Overlays(m, documents), q) == Get(m, q)
    decreases |documents|
  {
    hide Get, DoWrites, WritesOf, Apart, OwnedPaths, OfKnownTasks;
    if |documents| > 0 {
      var init, last := documents[..|documents| - 1], documents[|documents| - 1];
      assert forall d | d in init :: d in documents;
      assert last in documents;
      OverlaysElsewhere(m, init, q);
      OverlayElsewhere(Overlays(m, init), last, q);
    }
  }

  lemma OverlayElsewhere(m: Config, d: Models, q: Path)
    requires OfKnownTasks(d)
    requires |q| > 0 && forall p | p in OwnedPaths() :: Apart(p, q)
    ensures Get(DoWrites(m, WritesOf(d)), q) == Get(m, q)
  {
    hide Get, DoWrites, WritesOf, Apart, OwnedPaths, ValidWrites;
    var ws := WritesOf(d);
    WritesOfValid(d);
    assert ws[..|ws|] == ws;
    forall i | 0 <= i < |ws| ensures Apart(ws[i].path, q) {
      assert ws[i] in ws;
      WritesAreOwned(d, ws[i]);
    }
    WritesMeaning(m, ws, |ws|);
  }

  // After any number of overlays and a rollback: every owned path reads as in the template, exactly unless
  // the template holds null there and the runtime nothing; the chain is gone or restored from the
  // template's; and everything apart from what the state owns is as before the first overlay.
  lemma RollbackAfterOverlays(m: Config, documents: seq<Models>, template: Config)
    requires forall d | d in documents :: OfKnownTasks(d)
    ensures var laid := Overlays(m, documents);
      forall p | p in OwnedPaths() && p != CHAIN_PATH ::
        Get(Rollback(laid, template), p) == Get(template, p) <==> !Unrestorable(laid, template, p)
    ensures var laid := Overlays(m, documents);
      Get(Rollback(laid, template), CHAIN_PATH) ==
        var chain := TemplateChain(template);
        if chain.None? then None else Some(List(AsJson(RestoredChain(chain.value, Existing(laid, CHAIN_PATH)))))
    ensures forall q: Path | |q| > 0 && (forall p | p in OwnedPaths() :: Apart(p, q)) ::
      Get(Rollback(Overlays(m, documents), template), q) == Get(m, q)
  {
    hide *;
    OwnedPathsApart();
    var laid, paths := Overlays(m, documents), OwnedPaths();
    RollbackIs(laid, template);
    forall p | p in paths && p != CHAIN_PATH
      ensures Get(Rollback(laid, template), p) == Get(template, p) <==> !Unrestorable(laid, template, p)
    {
      var i :| 0 <= i < |paths| && paths[i] == p;
      RestoredAt(laid, template, paths, i);
      PlainTarget(laid, template, p);
    }
    ChainOwned();
    var c :| 0 <= c < |paths| && paths[c] == CHAIN_PATH;
    RestoredAt(laid, template, paths, c);
    ChainTarget(laid, template);
    forall q: Path | |q| > 0 && (forall p | p in paths :: Apart(p, q)) ensures Get(Rollback(laid, template), q) == Get(m, q) {
      assert forall i | 0 <= i < |paths| :: paths[i] in paths;
      RestoreElsewhere(laid, template, paths, q);
      OverlaysElsewhere(m, documents, q);
    }
  }

  lemma PlainTarget(m: Config, template: Config, p: Path)
    requires |p| > 0 && p != CHAIN_PATH
    ensures Target(m, template, p) == Get(template, p)
    ensures Unrestorable(m, template, p) <==> Get(template, p) == Some(Null) && Get(m, p) == None
  {
    hide Get;
  }

  lemma ChainTarget(m: Config, template: Config)
    ensures !Unrestorable(m, template, CHAIN_PATH)
    ensures Target(m, template, CHAIN_PATH) ==
      var chain := TemplateChain(template);
      if chain.None? then None else Some(List(AsJson(RestoredChain(chain.value, Existing(m, CHAIN_PATH)))))
  {
    hide Get, TemplateChain, RestoredChain, AsJson, Existing;
  }

  lemma ChainOwned()
    ensures CHAIN_PATH in OwnedPaths()
  {
    var ws := WritesOf(Everything());
    hide TaskWrites;
    assert ws[2] == MergeChain(CHAIN_PATH, []);
    assert OwnedPaths()[2] == CHAIN_PATH;
  }

  // Where it falls short: a null in the template over a runtime without the section makes an empty
  // section, restores nothing, and reports no change.
  lemma NullDefaultIsSilent() returns (template: Config)
    ensures Get(template, ModelPath("provider")) == Some(Null) && ModelPath("provider") in OwnedPaths()
    ensures Rollback(map[], template) != map[]
    ensures Get(Rollback(map[], template), ModelPath("provider")) == None
    ensures forall p | p in OwnedPaths() :: !StepChanges(map[], template, p)
  {
    template := map["model" := Dict(map["provider" := Null])];
    var path := ModelPath("provider");
    ProviderOwned();
    GetMissing(path);
    assert Get(template, path) == Some(Null);
    assert path != CHAIN_PATH by { assert |path| == 2 && |CHAIN_PATH| == 1; }
    assert Unrestorable(map[], template, path) && !HasSections(map[], path);
    forall p | p in OwnedPaths() ensures !StepChanges(map[], template, p) { NothingWanted(template, p); }
    hide *;
    OwnedPathsApart();
    RollbackIs(map[], template);
    var i :| 0 <= i < |OwnedPaths()| && OwnedPaths()[i] == path;
    RestoredAt(map[], template, OwnedPaths(), i);
    ReshapesIs(template, path);
  }

  lemma ReshapesIs(template: Config, path: Path)
    requires |path| > 0 && Unrestorable(map[], template, path) && !HasSections(map[], path)
    ensures Reshapes(map[], template, path)
  {
  }

  lemma ProviderOwned()
    ensures ModelPath("provider") in OwnedPaths()
  {
    hide TaskWrites;
    assert WritesOf(Everything())[0].path == ModelPath("provider");
    assert OwnedPaths()[0] == ModelPath("provider");
  }

  lemma ApartOwned(paths: seq<Path>, p: Path, q: Path)
    requires AllApart(paths) && p in paths && q in paths && p != q
    ensures Apart(p, q)
  {
    hide Apart;
    var i :| 0 <= i < |paths| && paths[i] == p;
    var j :| 0 <= j < |paths| && paths[j] == q;
    ApartSymmetric(p, q);
  }

  lemma NothingWanted(template: Config, p: Path)
    requires template == map["model" := Dict(map["provider" := Null])] && p in OwnedPaths()
    ensures !StepChanges(map[], template, p)
  {
    hide OwnedPaths;
    OwnedPathsApart();
    ProviderOwned();
    HeadsDiffer();
    GetMissing(p);
    if p != ModelPath("provider") { ApartOwned(OwnedPaths(), p, ModelPath("provider")); }
    assert ["model"] <= ModelPath("provider");
    if |p| == 1 {
      assert p == [p[0]];
    } else if p[0] == "model" {
      var inner: Config := map["provider" := Null];
      assert Get(template, p) == Get(inner, p[1..]);
      assert forall key | key in inner :: inner[key] == Null;
    }
  }
}
