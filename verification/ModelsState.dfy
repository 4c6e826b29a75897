// The state-owned model selection: which paths of a runtime configuration an overlay writes, and how a
// rollback returns exactly those to the template.
module ModelsState {
  import opened Text
  import opened FallbackMerge
  import opened ModelsOverlay

  // A validated models.yaml; the chain is empty when the document holds null.
  datatype Models = Models(model: Option<(Json, Json)>, chain: Option<seq<Entry>>, auxiliary: seq<(string, Json, Json)>,
                           cronModel: Option<Json>, cronProvider: Option<Json>)

  const CHAIN_PATH: Path := ["fallback_providers"]

  function ModelPath(key: string): Path { ["model", key] }
  function TaskPath(task: string, key: string): Path { ["auxiliary", task, key] }
  function CronPath(key: string): Path { ["cron", key] }

  function ModelWrites(m: Models): seq<Write> {
    if m.model.None? then [] else [SetTo(ModelPath("provider"), m.model.value.0), SetTo(ModelPath("default"), m.model.value.1)]
  }

  function ChainWrites(m: Models): seq<Write> {
    if m.chain.None? then [] else [MergeChain(CHAIN_PATH, m.chain.value)]
  }

  function TaskWrites(tasks: seq<(string, Json, Json)>): (ws: seq<Write>)
    ensures forall w | w in ws :: |w.path| > 0
    decreases |tasks|
  {
    if |tasks| == 0 then []
    else
      var last := tasks[|tasks| - 1];
      TaskWrites(tasks[..|tasks| - 1]) + [SetTo(TaskPath(last.0, "provider"), last.1), SetTo(TaskPath(last.0, "model"), last.2)]
  }

  function CronWrites(m: Models): seq<Write> {
    (if m.cronModel.None? then [] else [SetTo(CronPath("model"), m.cronModel.value)])
    + (if m.cronProvider.None? then [] else [SetTo(CronPath("model_provider"), m.cronProvider.value)])
  }

  function WritesOf(m: Models): (ws: seq<Write>)
    ensures forall w | w in ws :: |w.path| > 0
  {
    ModelWrites(m) + ChainWrites(m) + TaskWrites(m.auxiliary) + CronWrites(m)
  }

  // What a document writes, and where: the selected model, the chain, each auxiliary task's model, and the
  // model of scheduled jobs.
  lemma WritesExact(m: Models, w: Write)
    ensures w in WritesOf(m) <==>
      || (m.model.Some? && (w == SetTo(["model", "provider"], m.model.value.0) || w == SetTo(["model", "default"], m.model.value.1)))
      || (m.chain.Some? && w == MergeChain(["fallback_providers"], m.chain.value))
      || (exists t | t in m.auxiliary :: w == SetTo(["auxiliary", t.0, "provider"], t.1) || w == SetTo(["auxiliary", t.0, "model"], t.2))
      || (m.cronModel.Some? && w == SetTo(["cron", "model"], m.cronModel.value))
      || (m.cronProvider.Some? && w == SetTo(["cron", "model_provider"], m.cronProvider.value))
  {
    hide TaskWrites;
    TaskWritesExact(m.auxiliary, w);
  }

  lemma {:induction false} TaskWritesExact(tasks: seq<(string, Json, Json)>, w: Write)
    ensures w in TaskWrites(tasks) <==>
      exists t | t in tasks :: w == SetTo(["auxiliary", t.0, "provider"], t.1) || w == SetTo(["auxiliary", t.0, "model"], t.2)
    decreases |tasks|
  {
    if |tasks| > 0 {
      TaskWritesExact(tasks[..|tasks| - 1], w);
      assert tasks == tasks[..|tasks| - 1] + [tasks[|tasks| - 1]];
      assert forall t :: t in tasks <==> t in tasks[..|tasks| - 1] || t == tasks[|tasks| - 1];
    }
  }

  ghost predicate ValidModels(m: Models) {
    && (m.model.Some? ==> m.model.value.0 != Null && m.model.value.1 != Null)
    && (forall i | 0 <= i < |m.auxiliary| :: m.auxiliary[i].1 != Null && m.auxiliary[i].2 != Null)
    && (forall i, j | 0 <= i < j < |m.auxiliary| :: m.auxiliary[i].0 != m.auxiliary[j].0)
    && m.cronModel != Some(Null) && m.cronProvider != Some(Null)
  }

  // Writes below one path are apart from writes apart from it.
  lemma ConcatValid(a: seq<Write>, b: seq<Write>, below: Path)
    requires ValidWrites(a) && ValidWrites(b)
    requires forall w | w in a :: Apart(w.path, below)
    requires forall w | w in b :: below <= w.path
    ensures ValidWrites(a + b)
  {
    var ab := a + b;
    forall i, j | 0 <= i < j < |ab| ensures Apart(ab[i].path, ab[j].path) {
      if i < |a| <= j {
        assert a[i] in a && b[j - |a|] in b;
        ApartBelow(ab[i].path, below, ab[j].path);
      }
    }
  }

  lemma ApartBelow(p: Path, below: Path, q: Path)
    requires Apart(p, below) && below <= q
    ensures Apart(p, q)
  {
    assert q[..|below|] == below;
  }

  lemma HeadsDiffer()
    ensures "model" != "fallback_providers" && "model" != "auxiliary" && "model" != "cron"
    ensures "fallback_providers" != "auxiliary" && "fallback_providers" != "cron" && "auxiliary" != "cron"
    ensures "provider" != "default" && "provider" != "model" && "model" != "model_provider"
  {
    assert |"model"| == 5 && |"fallback_providers"| == 18 && |"auxiliary"| == 9 && |"cron"| == 4;
    assert |"provider"| == 8 && |"default"| == 7 && |"model_provider"| == 14;
  }

  lemma ApartAt(p: Path, q: Path, k: nat)
    requires k < |p| && k < |q| && p[k] != q[k]
    ensures Apart(p, q)
  {
  }

  lemma {:induction false} TaskWritesValid(tasks: seq<(string, Json, Json)>)
    requires forall i | 0 <= i < |tasks| :: tasks[i].1 != Null && tasks[i].2 != Null
    requires forall i, j | 0 <= i < j < |tasks| :: tasks[i].0 != tasks[j].0
    ensures ValidWrites(TaskWrites(tasks))
    ensures forall w | w in TaskWrites(tasks) ::
      |w.path| == 3 && w.path[0] == "auxiliary" && exists i | 0 <= i < |tasks| :: tasks[i].0 == w.path[1]
    decreases |tasks|
  {
    HeadsDiffer();
    hide Apart;
    if |tasks| > 0 {
      var init, last := tasks[..|tasks| - 1], tasks[|tasks| - 1];
      TaskWritesValid(init);
      var a, b := TaskWrites(init), [SetTo(TaskPath(last.0, "provider"), last.1), SetTo(TaskPath(last.0, "model"), last.2)];
      var below := ["auxiliary", last.0];
      ApartAt(b[0].path, b[1].path, 2);
      forall w | w in a ensures Apart(w.path, below) {
        var i :| 0 <= i < |init| && init[i].0 == w.path[1];
        assert tasks[i].0 != last.0;
        ApartAt(w.path, below, 1);
      }
      ConcatValid(a, b, below);
      forall w | w in a ensures exists i | 0 <= i < |tasks| :: tasks[i].0 == w.path[1] {
        var i :| 0 <= i < |init| && init[i].0 == w.path[1];
        assert tasks[i] == init[i];
      }
      assert tasks[|tasks| - 1].0 == last.0;
    }
  }

  lemma ModelWritesValid(m: Models)
    requires ValidModels(m)
    ensures ValidWrites(ModelWrites(m)) && forall w | w in ModelWrites(m) :: |w.path| > 0 && w.path[0] == "model"
  {
    HeadsDiffer();
    if m.model.Some? { ApartAt(ModelPath("provider"), ModelPath("default"), 1); }
  }

  lemma CronWritesValid(m: Models)
    requires ValidModels(m)
    ensures ValidWrites(CronWrites(m)) && forall w | w in CronWrites(m) :: |w.path| > 0 && w.path[0] == "cron"
  {
    HeadsDiffer();
    ApartAt(CronPath("model"), CronPath("model_provider"), 1);
    hide Apart;
  }

  lemma ChainWritesValid(m: Models)
    ensures ValidWrites(ChainWrites(m)) && forall w | w in ChainWrites(m) :: |w.path| > 0 && w.path[0] == "fallback_providers"
  {
  }

  // Every overlay a validated document asks for is one ApplyModelsToConfig handles.
  lemma WritesOfValid(m: Models)
    requires ValidModels(m)
    ensures ValidWrites(WritesOf(m))
  {
    hide Apart, ValidWrites, ModelWrites, ChainWrites, TaskWrites, CronWrites;
    HeadsDiffer();
    ModelWritesValid(m);
    ChainWritesValid(m);
    TaskWritesValid(m.auxiliary);
    CronWritesValid(m);
    JoinHeads(ModelWrites(m), ChainWrites(m), "fallback_providers");
    JoinHeads(ModelWrites(m) + ChainWrites(m), TaskWrites(m.auxiliary), "auxiliary");
    JoinHeads(ModelWrites(m) + ChainWrites(m) + TaskWrites(m.auxiliary), CronWrites(m), "cron");
  }

  lemma JoinHeads(a: seq<Write>, b: seq<Write>, head: string)
    requires ValidWrites(a) && ValidWrites(b)
    requires forall w | w in a :: |w.path| > 0 && w.path[0] != head
    requires forall w | w in b :: |w.path| > 0 && w.path[0] == head
    ensures ValidWrites(a + b)
  {
    ConcatValid(a, b, [head]);
  }

  // ----- everything the state owns -----

  const TASKS: seq<string> := ["vision", "compression", "skills_hub", "approval", "mcp", "title_generation", "review",
                               "triage_specifier", "kanban_decomposer", "profile_describer", "curator"]

  lemma TasksDistinct()
    ensures |TASKS| == 11 && forall i, j | 0 <= i < j < |TASKS| :: TASKS[i] != TASKS[j]
  {
    assert |TASKS[0]| == 6 && |TASKS[1]| == 11 && |TASKS[2]| == 10 && |TASKS[3]| == 8 && |TASKS[4]| == 3 && |TASKS[5]| == 16;
    assert |TASKS[6]| == 6 && |TASKS[7]| == 16 && |TASKS[8]| == 17 && |TASKS[9]| == 17 && |TASKS[10]| == 7;
    assert TASKS[0][0] != TASKS[6][0] && TASKS[5][1] != TASKS[7][1] && TASKS[8][0] != TASKS[9][0];
  }

  // A document that sets every key a document can set.
  function Everything(): Models {
    var x := Scalar("");
    Models(Some((x, x)), Some([]), seq(|TASKS|, i requires 0 <= i < |TASKS| => (TASKS[i], x, x)), Some(x), Some(x))
  }

  // The owned paths, in the order a rollback takes them.
  function OwnedPaths(): (paths: seq<Path>)
    ensures |paths| == |WritesOf(Everything())|
    ensures forall i | 0 <= i < |paths| :: paths[i] == WritesOf(Everything())[i].path
    ensures forall p | p in paths :: |p| > 0
  {
    var ws := WritesOf(Everything());
    assert forall i | 0 <= i < |ws| :: ws[i] in ws;
    seq(|ws|, i requires 0 <= i < |ws| => ws[i].path)
  }

  ghost predicate AllApart(paths: seq<Path>) {
    && (forall p | p in paths :: |p| > 0)
    && (forall i, j | 0 <= i < j < |paths| :: Apart(paths[i], paths[j]))
  }

  lemma OwnedPathsApart()
    ensures AllApart(OwnedPaths())
  {
    TasksDistinct();
    hide Apart, WritesOf;
    WritesOfValid(Everything());
    var ws, paths := WritesOf(Everything()), OwnedPaths();
    forall p | p in paths ensures |p| > 0 {
      var i :| 0 <= i < |paths| && paths[i] == p;
      assert ws[i] in ws;
    }
  }

  // A validated document, which names known tasks only.
  ghost predicate OfKnownTasks(m: Models) {
    ValidModels(m) && forall t | t in m.auxiliary :: t.0 in TASKS
  }

  lemma {:induction false} TaskPathsIn(tasks: seq<(string, Json, Json)>, all: seq<(string, Json, Json)>, w: Write)
    requires w in TaskWrites(tasks) && forall t | t in tasks :: exists u | u in all :: u.0 == t.0
    ensures exists v | v in TaskWrites(all) :: v.path == w.path
    decreases |tasks|
  {
    var init, last := tasks[..|tasks| - 1], tasks[|tasks| - 1];
    assert tasks == init + [last];
    if w in TaskWrites(init) {
      TaskPathsIn(init, all, w);
    } else {
      var u :| u in all && u.0 == last.0;
      TaskHasPaths(all, u);
    }
  }

  lemma {:induction false} TaskHasPaths(all: seq<(string, Json, Json)>, u: (string, Json, Json))
    requires u in all
    ensures SetTo(TaskPath(u.0, "provider"), u.1) in TaskWrites(all) && SetTo(TaskPath(u.0, "model"), u.2) in TaskWrites(all)
    decreases |all|
  {
    var init, last := all[..|all| - 1], all[|all| - 1];
    assert all == init + [last];
    if u in init { TaskHasPaths(init, u); }
  }

  // Every path a document writes is owned.
  lemma WritesAreOwned(m: Models, w: Write)
    requires OfKnownTasks(m) && w in WritesOf(m)
    ensures w.path in OwnedPaths()
  {
    hide TaskWrites;
    var e := Everything();
    var ws := WritesOf(e);
    if w in TaskWrites(m.auxiliary) {
      forall t | t in m.auxiliary ensures exists u | u in e.auxiliary :: u.0 == t.0 {
        var i :| 0 <= i < |TASKS| && TASKS[i] == t.0;
        assert e.auxiliary[i] in e.auxiliary;
      }
      TaskPathsIn(m.auxiliary, e.auxiliary, w);
      var v :| v in TaskWrites(e.auxiliary) && v.path == w.path;
      assert v in ws;
      PathOwned(v);
    } else if w in ModelWrites(m) {
      assert exists v | v in ModelWrites(e) :: v.path == w.path by {
        assert ModelWrites(e)[0].path == ModelPath("provider") && ModelWrites(e)[1].path == ModelPath("default");
        assert ModelWrites(e)[0] in ModelWrites(e) && ModelWrites(e)[1] in ModelWrites(e);
      }
      var v :| v in ModelWrites(e) && v.path == w.path;
      assert v in ws;
      PathOwned(v);
    } else if w in ChainWrites(m) {
      assert ChainWrites(e)[0] in ws;
      PathOwned(ChainWrites(e)[0]);
    } else {
      assert exists v | v in CronWrites(e) :: v.path == w.path by {
        assert CronWrites(e)[0].path == CronPath("model") && CronWrites(e)[1].path == CronPath("model_provider");
        assert CronWrites(e)[0] in CronWrites(e) && CronWrites(e)[1] in CronWrites(e);
      }
      var v :| v in CronWrites(e) && v.path == w.path;
      assert v in ws;
      PathOwned(v);
    }
  }

  lemma PathOwned(v: Write)
    requires v in WritesOf(Everything())
    ensures v.path in OwnedPaths()
  {
    hide WritesOf, Everything;
    var ws := WritesOf(Everything());
    var i :| 0 <= i < |ws| && ws[i] == v;
    assert OwnedPaths()[i] == v.path;
  }

  // ----- the chain in a rollback -----

  // The selection keys the template's entries of one provider define between them.
  function KeysFor(template: seq<Entry>, provider: Json): set<string> {
    set e, key | e in template && key in e && Selection(key) && Provider(e) == provider :: key
  }

  function Pruned(entry: Entry, template: seq<Entry>): Entry {
    if Provider(entry) == Null then entry
    else map key | key in entry && (Selection(key) ==> key in KeysFor(template, Provider(entry))) :: entry[key]
  }

  function RestoredChain(template: seq<Entry>, existing: seq<Json>): (r: seq<Entry>)
    ensures |r| == |template|
  {
    var merged := Merge(template, Consumable(existing));
    seq(|template|, i requires 0 <= i < |template| => Pruned(merged[i], template))
  }

  // An entry restored from the template has the template's selection: every key it defines, with its
  // value, and another selection key exactly when some entry of the same provider defines it and the
  // existing entry it uses has it.
  lemma RestoredChainExact(template: seq<Entry>, existing: seq<Json>, i: nat, key: string)
    requires i < |template| && Selection(key) && Provider(template[i]) != Null
    ensures var r, use := RestoredChain(template, existing)[i], Uses(template, Consumable(existing))[i];
      && (key in template[i] ==> key in r && r[key] == template[i][key])
      && (key !in template[i] ==>
            (key in r <==> use.Some? && key in use.value.1
                           && exists e | e in template :: Provider(e) == Provider(template[i]) && key in e))
  {
    hide Merge, Uses, Consumable, Overlaid, Provider;
    var merged := Merge(template, Consumable(existing));
    MergeMeaning(template, existing, i, key);
    var use := Uses(template, Consumable(existing))[i];
    assert merged[i] == Merged(template[i], use);
    if key !in template[i] { MergedKeys(template[i], use, key); }
    assert template[i] in template;
    assert key in KeysFor(template, Provider(template[i])) <==> exists e | e in template :: Provider(e) == Provider(template[i]) && key in e;
  }

  lemma MergedKeys(state: Entry, use: Option<(nat, Entry)>, key: string)
    requires Selection(key) && key !in state
    ensures key in Merged(state, use) <==> use.Some? && key in use.value.1
  {
  }

  // Every other field is that of the existing entry it uses.
  lemma RestoredKeepsFields(template: seq<Entry>, existing: seq<Json>, i: nat, key: string)
    requires i < |template| && key != "provider" && key != "model"
    ensures var r, use := RestoredChain(template, existing)[i], Uses(template, Consumable(existing))[i];
      && (key in r <==> use.Some? && key in use.value.1)
      && (key in r ==> r[key] == use.value.1[key])
  {
    RuntimeFieldsKept(template, existing, i, key);
    hide Uses, Consumable, KeysFor, Merge;
  }

  // So the restored selection is the template's whenever entries of one provider define the same keys.
  lemma RestoredChainIsTemplate(template: seq<Entry>, existing: seq<Json>, i: nat, key: string)
    requires i < |template| && Selection(key) && Provider(template[i]) != Null
    requires forall e | e in template && Provider(e) == Provider(template[i]) :: key in e <==> key in template[i]
    ensures var r := RestoredChain(template, existing)[i];
      (key in r <==> key in template[i]) && (key in r ==> r[key] == template[i][key])
  {
    hide RestoredChain, Provider, Uses, Consumable;
    RestoredChainExact(template, existing, i, key);
  }
}
