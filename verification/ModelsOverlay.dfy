// The model selection kept by the state: laid over a runtime configuration, and taken back to the
// template's when the state is gone.
module ModelsOverlay {
  import opened Text
  import opened FallbackMerge

  type Config = map<string, Json>
  type Path = seq<string>

  // ----- nested keys -----

  // The dictionary under a key, or an empty one.
  function Section(m: Config, key: string): Config {
    if key in m && m[key].Dict? then m[key].fields else map[]
  }

  // The value at a path; None when any step is missing.
  function Get(m: Config, path: Path): Option<Json>
    requires |path| > 0
    decreases |path|
  {
    if |path| == 1 then (if path[0] in m then Some(m[path[0]]) else None)
    else if path[0] in m && m[path[0]].Dict? then Get(m[path[0]].fields, path[1..])
    else None
  }

  // dict.get of the last step: a missing value reads as null.
  function Read(m: Config, path: Path): Json
    requires |path| > 0
  {
    var v := Get(m, path);
    if v.Some? then v.value else Null
  }

  // Sections on the way are created or replaced by dictionaries; the value is written if it differs.
  function SetNested(m: Config, path: Path, value: Json): Config
    requires |path| > 0
    decreases |path|
  {
    if |path| == 1 then (if (if path[0] in m then m[path[0]] else Null) != value then m[path[0] := value] else m)
    else m[path[0] := Dict(SetNested(Section(m, path[0]), path[1..], value))]
  }

  function DelNested(m: Config, path: Path): Config
    requires |path| > 0
    decreases |path|
  {
    if |path| == 1 then m - {path[0]}
    else if path[0] in m && m[path[0]].Dict? then m[path[0] := Dict(DelNested(m[path[0]].fields, path[1..]))]
    else m
  }

  // Neither path runs through the other.
  predicate Apart(p: Path, q: Path) {
    !(p <= q) && !(q <= p)
  }

  lemma {:induction false} SetThenGet(m: Config, path: Path, value: Json)
    requires |path| > 0 && value != Null
    ensures Get(SetNested(m, path, value), path) == Some(value)
    decreases |path|
  {
    if |path| > 1 { SetThenGet(Section(m, path[0]), path[1..], value); }
  }

  lemma ApartTail(p: Path, q: Path)
    requires Apart(p, q) && |p| > 0 && |q| > 0 && p[0] == q[0]
    ensures |p| > 1 && |q| > 1 && Apart(p[1..], q[1..])
  {
    assert p == [p[0]] + p[1..];
    assert q == [q[0]] + q[1..];
  }

  lemma {:induction false} SetElsewhere(m: Config, path: Path, value: Json, q: Path)
    requires |path| > 0 && |q| > 0 && Apart(path, q)
    ensures Get(SetNested(m, path, value), q) == Get(m, q)
    decreases |path|
  {
    if path[0] == q[0] {
      ApartTail(path, q);
      SetElsewhere(Section(m, path[0]), path[1..], value, q[1..]);
      GetMissing(q[1..]);
    }
  }

  lemma {:induction false} GetMissing(q: Path)
    requires |q| > 0
    ensures Get(map[], q) == None
  {
  }

  lemma {:induction false} SetSame(m: Config, path: Path, value: Json)
    requires |path| > 0 && Get(m, path) == Some(value)
    ensures SetNested(m, path, value) == m
    decreases |path|
  {
    if |path| > 1 { SetSame(m[path[0]].fields, path[1..], value); }
  }

  lemma {:induction false} DelThenGet(m: Config, path: Path)
    requires |path| > 0
    ensures Get(DelNested(m, path), path) == None
    decreases |path|
  {
    if |path| > 1 && path[0] in m && m[path[0]].Dict? { DelThenGet(m[path[0]].fields, path[1..]); }
  }

  lemma {:induction false} DelElsewhere(m: Config, path: Path, q: Path)
    requires |path| > 0 && |q| > 0 && Apart(path, q)
    ensures Get(DelNested(m, path), q) == Get(m, q)
    decreases |path|
  {
    if path[0] == q[0] {
      ApartTail(path, q);
      if path[0] in m && m[path[0]].Dict? { DelElsewhere(m[path[0]].fields, path[1..], q[1..]); }
    }
  }

  // ----- applying an overlay -----

  // What the overlay writes, in order: a value at a path, or the merged fallback chain.
  datatype Write = SetTo(path: Path, value: Json) | MergeChain(path: Path, state: seq<Entry>)

  function Existing(m: Config, path: Path): seq<Json>
    requires |path| > 0
  {
    var v := Get(m, path);
    if v.Some? && v.value.List? then v.value.items else []
  }

  // The value a write leaves at its path.
  function Wanted(m: Config, w: Write): Json
    requires |w.path| > 0
  {
    match w
    case SetTo(_, value) => value
    case MergeChain(path, state) => List(AsJson(Merge(state, Consumable(Existing(m, path)))))
  }

  function DoWrite(m: Config, w: Write): Config
    requires |w.path| > 0
  {
    SetNested(m, w.path, Wanted(m, w))
  }

  // Writing a chain leaves the state's entries merged with the entries the chain has, or with none when
  // there is no chain.
  lemma ChainWritten(m: Config, path: Path, state: seq<Entry>)
    requires |path| > 0
    ensures Get(DoWrite(m, MergeChain(path, state)), path) == Some(List(AsJson(Merge(state, Consumable(
      match Get(m, path)
      case Some(List(items)) => items
      case _ => [])))))
  {
    hide Merge, Consumable, AsJson, Get, SetNested;
    SetThenGet(m, path, Wanted(m, MergeChain(path, state)));
  }

  // A validated overlay: its paths stand apart and no value is null.
  ghost predicate ValidWrites(ws: seq<Write>) {
    && (forall w | w in ws :: |w.path| > 0 && (w.SetTo? ==> w.value != Null))
    && (forall i, j | 0 <= i < j < |ws| :: Apart(ws[i].path, ws[j].path))
  }

  function DoWrites(m: Config, ws: seq<Write>): Config
    requires forall w | w in ws :: |w.path| > 0
    decreases |ws|
  {
    if |ws| == 0 then m
    else
      assert forall w | w in ws[..|ws| - 1] :: w in ws;
      DoWrite(DoWrites(m, ws[..|ws| - 1]), ws[|ws| - 1])
  }

  method ApplyModelsToConfig(m: Config, ws: seq<Write>) returns (config: Config, changed: bool)
    requires ValidWrites(ws)
    ensures config == DoWrites(m, ws)
    ensures changed <==> config != m
  {
    hide *;
    config, changed := m, false;
    WritesHavePaths(ws);
    assert ws[..0] == [];
    NoWrites(m);
    for i := 0 to |ws|
      invariant forall w | w in ws[..i] :: |w.path| > 0
      invariant config == DoWrites(m, ws[..i])
      invariant changed <==> config != m
    {
      assert ws[..i + 1] == ws[..i] + [ws[i]];
      assert ws[i] in ws;
      WritesStep(m, ws, i);
      WriteChanges(config, ws[i], ws);
      EarlierKept(m, ws, i);
      var w := ws[i];
      var value := Wanted(config, w);
      if Read(config, w.path) != value { changed := true; }
      config := SetNested(config, w.path, value);
    }
    assert ws[..|ws|] == ws;
  }

  lemma WritesHavePaths(ws: seq<Write>)
    requires ValidWrites(ws)
    ensures forall w | w in ws :: |w.path| > 0
    ensures forall i: nat | i <= |ws| :: forall w | w in ws[..i] :: w in ws
  {
    hide Apart;
  }

  lemma NoWrites(m: Config)
    ensures DoWrites(m, []) == m
  {
  }

  lemma WritesStep(m: Config, ws: seq<Write>, i: nat)
    requires i < |ws| && forall w | w in ws :: |w.path| > 0
    ensures (forall w | w in ws[..i] :: |w.path| > 0) && (forall w | w in ws[..i + 1] :: |w.path| > 0)
    ensures |ws[i].path| > 0 && DoWrites(m, ws[..i + 1]) == SetNested(DoWrites(m, ws[..i]), ws[i].path, Wanted(DoWrites(m, ws[..i]), ws[i]))
  {
    hide Wanted, SetNested;
    assert forall w | w in ws[..i + 1] :: w in ws;
    assert ws[..i + 1][..i] == ws[..i];
  }

  lemma WantedIsValue(m: Config, w: Write, ws: seq<Write>)
    requires ValidWrites(ws) && w in ws
    ensures |w.path| > 0 && Wanted(m, w) != Null
  {
    hide Merge, Consumable, Existing, AsJson, Apart;
  }

  // A write changes the configuration exactly when its path did not read as wanted; afterwards it does.
  lemma WriteChanges(m: Config, w: Write, ws: seq<Write>)
    requires ValidWrites(ws) && w in ws
    ensures |w.path| > 0
    ensures var after := SetNested(m, w.path, Wanted(m, w));
      && (Read(m, w.path) != Wanted(m, w) <==> after != m)
      && Get(after, w.path) == Some(Wanted(m, w))
  {
    hide Wanted, SetNested, Get, ValidWrites;
    WantedIsValue(m, w, ws);
    SetThenGet(m, w.path, Wanted(m, w));
    if Read(m, w.path) == Wanted(m, w) { SetSame(m, w.path, Wanted(m, w)); }
  }

  // A value written by the first i writes is not touched by the next.
  lemma EarlierKept(m: Config, ws: seq<Write>, i: nat)
    requires ValidWrites(ws) && i < |ws| && forall w | w in ws :: |w.path| > 0
    requires forall w | w in ws[..i] :: |w.path| > 0
    ensures var before := DoWrites(m, ws[..i]);
      before != m ==> SetNested(before, ws[i].path, Wanted(before, ws[i])) != m
  {
    hide Wanted, SetNested, Get, DoWrites, ValidWrites;
    var before := DoWrites(m, ws[..i]);
    if before != m {
      var j := FirstChange(m, ws, i);
      ApartIn(ws, j, i);
      SetElsewhere(before, ws[i].path, Wanted(before, ws[i]), ws[j].path);
    }
  }

  lemma ApartIn(ws: seq<Write>, j: nat, i: nat)
    requires ValidWrites(ws) && i < |ws| && j < |ws| && i != j
    ensures |ws[i].path| > 0 && |ws[j].path| > 0 && Apart(ws[i].path, ws[j].path)
  {
    assert ws[i] in ws && ws[j] in ws;
  }

  // If the first i writes changed the configuration, one of them left a different value at its path.
  lemma {:induction false} FirstChange(m: Config, ws: seq<Write>, i: nat) returns (j: nat)
    requires ValidWrites(ws) && i <= |ws| && forall w | w in ws :: |w.path| > 0
    requires forall w | w in ws[..i] :: |w.path| > 0
    requires DoWrites(m, ws[..i]) != m
    ensures j < i && |ws[j].path| > 0 && Get(DoWrites(m, ws[..i]), ws[j].path) != Get(m, ws[j].path)
    decreases i
  {
    hide Wanted, SetNested, Get, DoWrites, ValidWrites, Apart;
    if i == 0 { NoWrites(m); }
    assert ws[..0] == [];
    WritesStep(m, ws, i - 1);
    assert ws[i - 1] in ws;
    var before := DoWrites(m, ws[..i - 1]);
    WriteChanges(before, ws[i - 1], ws);
    if before != m {
      j := FirstChange(m, ws, i - 1);
      ApartIn(ws, j, i - 1);
      SetElsewhere(before, ws[i - 1].path, Wanted(before, ws[i - 1]), ws[j].path);
    } else {
      j := i - 1;
    }
  }

  // After an overlay every written path reads as wanted, and paths apart from all of them are as before.
  lemma {:induction false} WritesMeaning(m: Config, ws: seq<Write>, n: nat)
    requires ValidWrites(ws) && n <= |ws| && forall w | w in ws :: |w.path| > 0
    requires forall w | w in ws[..n] :: |w.path| > 0
    ensures forall i | 0 <= i < n :: Get(DoWrites(m, ws[..n]), ws[i].path) == Some(Wanted(m, ws[i]))
    ensures forall q: Path | |q| > 0 && (forall i | 0 <= i < n :: Apart(ws[i].path, q)) :: Get(DoWrites(m, ws[..n]), q) == Get(m, q)
    decreases n
  {
    hide Wanted, SetNested, Get, DoWrites, ValidWrites, Apart;
    if n == 0 {
      NoWrites(m);
      assert ws[..0] == [];
    } else {
      WritesStep(m, ws, n - 1);
      WritesMeaning(m, ws, n - 1);
      assert ws[n - 1] in ws;
      var before, last := DoWrites(m, ws[..n - 1]), ws[n - 1];
      WriteChanges(before, last, ws);
      forall i | 0 <= i < n - 1 ensures Apart(ws[i].path, last.path) { ApartIn(ws, i, n - 1); ApartSymmetric(ws[n - 1].path, ws[i].path); }
      WantedFrom(m, before, last);
      forall i | 0 <= i < n ensures Get(DoWrites(m, ws[..n]), ws[i].path) == Some(Wanted(m, ws[i])) {
        if i < n - 1 {
          ApartIn(ws, i, n - 1);
          SetElsewhere(before, last.path, Wanted(before, last), ws[i].path);
        }
      }
      forall q: Path | |q| > 0 && (forall i | 0 <= i < n :: Apart(ws[i].path, q)) ensures Get(DoWrites(m, ws[..n]), q) == Get(m, q) {
        SetElsewhere(before, last.path, Wanted(before, last), q);
      }
    }
  }

  lemma ApartSymmetric(p: Path, q: Path)
    ensures Apart(p, q) <==> Apart(q, p)
  {
  }

  // What a write wants depends only on what is at its path.
  lemma WantedFrom(m: Config, n: Config, w: Write)
    requires |w.path| > 0
    ensures Get(m, w.path) == Get(n, w.path) ==> Wanted(m, w) == Wanted(n, w)
  {
    hide Get, Merge, Consumable, AsJson;
  }

  // Applying an overlay twice is applying it once, and the second time reports no change.
  lemma OverlayTwice(m: Config, ws: seq<Write>)
    requires ValidWrites(ws) && forall w | w in ws :: |w.path| > 0
    ensures DoWrites(DoWrites(m, ws), ws) == DoWrites(m, ws)
  {
    hide Wanted, SetNested, Get, DoWrites, ValidWrites, Apart;
    var once := DoWrites(m, ws);
    assert ws[..|ws|] == ws;
    WritesMeaning(m, ws, |ws|);
    var twice := DoWrites(once, ws);
    if twice != once {
      var j := FirstChange(once, ws, |ws|);
      WritesMeaning(once, ws, |ws|);
      assert ws[j] in ws;
      WantedTwice(m, once, ws[j]);
    }
  }

  lemma WantedTwice(m: Config, once: Config, w: Write)
    requires |w.path| > 0 && Get(once, w.path) == Some(Wanted(m, w))
    ensures Wanted(once, w) == Wanted(m, w)
  {
    hide Get, Merge, Consumable, AsJson;
    if w.MergeChain? { MergeTwice(w.state, Existing(m, w.path)); }
  }
}
