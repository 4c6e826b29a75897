// The command allowlist of each profile: a sidecar file that is authoritative, the runtime key projected
// from it, and the one-way marker that ends the import of old runtime values.
module AllowlistState {
  import opened Text
  import opened Order

  type Profile = string

  // A raw value under `command_allowlist`.
  datatype Raw = Null | ListOf(items: seq<string>) | Other

  // A sidecar file: its value if it parses with the right keys and version.
  datatype Sidecar = Parsed(raw: Raw) | Garbage

  datatype Marker = NoMarker | Marked | BadMarker

  // A runtime config: the key, if present, and everything else.
  datatype Config = Config(allow: Option<Raw>, rest: string)

  datatype State = State(sidecars: map<Profile, Sidecar>, runtimes: map<Profile, Config>, marker: Marker)

  // ----- canonical lists -----

  predicate BlankItem(item: string) { forall c | c in item :: IsSpace(c) }

  ghost predicate Canonical(items: seq<string>) {
    && (forall i, j | 0 <= i < j < |items| :: LexLe(items[i], items[j]) && items[i] != items[j])
    && forall item | item in items :: !BlankItem(item)
  }

  function InsertItem(item: string, items: seq<string>): seq<string> {
    if |items| == 0 then [item]
    else if item == items[0] then items
    else if LexLe(item, items[0]) then [item] + items
    else [items[0]] + InsertItem(item, items[1..])
  }

  // Sorted, each item once.
  function SortedOnce(items: seq<string>): seq<string>
    decreases |items|
  {
    if |items| == 0 then [] else InsertItem(items[|items| - 1], SortedOnce(items[..|items| - 1]))
  }

  // _canonical_allowlist_items: None is a rejected value.
  function CanonicalItems(raw: Raw): Option<seq<string>> {
    match raw
    case Null => Some([])
    case Other => None
    case ListOf(items) => if exists item | item in items :: BlankItem(item) then None else Some(SortedOnce(items))
  }

  method CanonicalAllowlistItems(raw: Raw) returns (r: Option<seq<string>>)
    ensures r == CanonicalItems(raw)
  {
    match raw
    case Null => return Some([]);
    case Other => return None;
    case ListOf(items) =>
      hide BlankItem, InsertItem;
      var sorted := [];
      for i := 0 to |items|
        invariant forall item | item in items[..i] :: !BlankItem(item)
        invariant sorted == SortedOnce(items[..i])
      {
        assert items[..i + 1] == items[..i] + [items[i]];
        assert items[..i + 1][..i] == items[..i];
        if BlankItem(items[i]) {
          assert items[i] in items;
          return None;
        }
        sorted := InsertItem(items[i], sorted);
      }
      assert items[..|items|] == items;
      return Some(sorted);
  }

  lemma {:induction false} InsertItemCanonical(item: string, items: seq<string>)
    requires Canonical(items) && !BlankItem(item)
    ensures Canonical(InsertItem(item, items))
    ensures forall x :: x in InsertItem(item, items) <==> x == item || x in items
    decreases |items|
  {
    hide LexLe, BlankItem;
    if |items| > 0 && item != items[0] {
      assert items == [items[0]] + items[1..];
      LexTotal(item, items[0]);
      if LexLe(item, items[0]) {
        forall j | 0 < j < |items| ensures LexLe(item, items[j]) && item != items[j] {
          LexTransitive(item, items[0], items[j]);
          if item == items[j] { LexAntisymmetric(items[0], items[j]); }
        }
      } else {
        InsertItemCanonical(item, items[1..]);
        var rest := InsertItem(item, items[1..]);
        forall j | 0 <= j < |rest| ensures LexLe(items[0], rest[j]) && items[0] != rest[j] {
          assert rest[j] in rest;
          if rest[j] != item {
            var k :| 0 <= k < |items[1..]| && items[1..][k] == rest[j];
            assert items[k + 1] == rest[j];
          }
        }
      }
    }
  }

  // Canonicalising keeps the items and nothing but them, and a canonical list is left as it is.
  lemma {:induction false} SortedOnceIs(items: seq<string>)
    requires forall item | item in items :: !BlankItem(item)
    ensures Canonical(SortedOnce(items))
    ensures forall x :: x in SortedOnce(items) <==> x in items
    ensures Canonical(items) ==> SortedOnce(items) == items
    decreases |items|
  {
    hide LexLe, BlankItem, InsertItem, Canonical;
    if |items| == 0 {
      NoItems();
    } else {
      var init, last := items[..|items| - 1], items[|items| - 1];
      assert items == init + [last];
      SortedOnceIs(init);
      assert last in items;
      InsertItemCanonical(last, SortedOnce(init));
      if Canonical(items) { LastOfCanonical(init, last); }
    }
  }

  lemma NoItems()
    ensures Canonical([])
  {
  }

  lemma LastOfCanonical(init: seq<string>, last: string)
    requires Canonical(init + [last])
    ensures Canonical(init) && InsertItem(last, init) == init + [last]
  {
    hide LexLe, BlankItem, InsertItem;
    var items := init + [last];
    assert forall i | 0 <= i < |init| :: init[i] == items[i];
    assert items[|init|] == last;
    InsertLast(last, init);
  }

  lemma {:induction false} InsertLast(item: string, items: seq<string>)
    requires Canonical(items) && forall i | 0 <= i < |items| :: LexLe(items[i], item) && items[i] != item
    ensures InsertItem(item, items) == items + [item]
    decreases |items|
  {
    hide LexLe, BlankItem;
    if |items| > 0 {
      if LexLe(item, items[0]) { LexAntisymmetric(item, items[0]); }
      InsertLast(item, items[1..]);
      assert items == [items[0]] + items[1..];
    }
  }

  // A value is refused exactly when it is no list or holds a blank item; else the canonical list holds its
  // items, each once and in order, and null counts as no items.
  lemma CanonicalExact(raw: Raw)
    ensures CanonicalItems(raw).None? <==> raw.Other? || (raw.ListOf? && exists item | item in raw.items :: forall c | c in item :: IsSpace(c))
    ensures CanonicalItems(raw).Some? ==>
      && Canonical(CanonicalItems(raw).value)
      && forall item :: item in CanonicalItems(raw).value <==> raw.ListOf? && item in raw.items
  {
    hide SortedOnce, Canonical, IsSpace;
    NoItems();
    if CanonicalItems(raw).Some? && raw.ListOf? { SortedOnceIs(raw.items); }
  }

  lemma CanonicalRoundTrip(raw: Raw)
    requires CanonicalItems(raw).Some?
    ensures Canonical(CanonicalItems(raw).value)
    ensures CanonicalItems(ListOf(CanonicalItems(raw).value)) == CanonicalItems(raw)
  {
    hide BlankItem, LexLe;
    var items := CanonicalItems(raw).value;
    if raw.ListOf? { SortedOnceIs(raw.items); }
    SortedOnceIs(items);
  }

  // ----- the operations -----

  // Reading a sidecar: null is not a list here.
  function ReadSidecar(file: Sidecar): Option<seq<string>> {
    if file.Garbage? || file.raw.Null? then None else CanonicalItems(file.raw)
  }

  // In an apply cycle the profiles in `broken` report an error of their own and keep their config; the
  // profiles in `reached` have their turn before a config write fails (all of them if none does).
  datatype Op =
    | Save(profile: Profile, commands: Raw, sidecarWritten: bool, runtimeWritten: bool)
    | Clear(profile: Profile, sidecarDeleted: bool, runtimeWritten: bool)
    | Migrate(profile: Profile, sidecarWritten: bool)
    | FinalizeMarker(written: bool)
    | ApplyAll(broken: set<Profile>, reached: set<Profile>)
    | EditRuntime(profile: Profile, config: Config)

  function WithAllow(config: Config, allow: Option<Raw>): Config { config.(allow := allow) }

  function RuntimeOf(s: State, p: Profile): Config { if p in s.runtimes then s.runtimes[p] else Config(None, "") }

  // What an apply cycle makes of one runtime config.
  function Projected(s: State, p: Profile): Config {
    if p in s.sidecars && ReadSidecar(s.sidecars[p]).Some? then WithAllow(RuntimeOf(s, p), Some(ListOf(ReadSidecar(s.sidecars[p]).value)))
    else WithAllow(RuntimeOf(s, p), None)
  }

  // Every present sidecar and the marker can be read.
  predicate Prevalidated(s: State) {
    s.marker != BadMarker && forall p | p in s.sidecars :: ReadSidecar(s.sidecars[p]).Some?
  }

  function DoSave(s: State, op: Op): (State, bool)
    requires op.Save?
  {
    if !op.commands.ListOf? || CanonicalItems(op.commands).None? || !op.sidecarWritten then (s, false)
    else
      var items := ListOf(CanonicalItems(op.commands).value);
      var saved := s.(sidecars := s.sidecars[op.profile := Parsed(items)]);
      if !op.runtimeWritten then (saved, false)
      else (saved.(runtimes := s.runtimes[op.profile := WithAllow(RuntimeOf(s, op.profile), Some(items))]), true)
  }

  function DoClear(s: State, op: Op): (State, bool)
    requires op.Clear?
  {
    if op.profile in s.sidecars && !op.sidecarDeleted then (s, false)
    else
      var cleared := s.(sidecars := s.sidecars - {op.profile});
      if !op.runtimeWritten then (cleared, false)
      else (cleared.(runtimes := s.runtimes[op.profile := WithAllow(RuntimeOf(s, op.profile), None)]), true)
  }

  // The old runtime value that would be imported, if any.
  function Importable(s: State, p: Profile): Option<seq<string>> {
    if s.marker != NoMarker || p !in s.runtimes || s.runtimes[p].allow.None? || p in s.sidecars then None
    else
      var items := CanonicalItems(s.runtimes[p].allow.value);
      if items.None? || items.value == [] then None else items
  }

  function DoMigrate(s: State, op: Op): (State, bool)
    requires op.Migrate?
  {
    var p := op.profile;
    var malformed := s.marker == NoMarker && p in s.runtimes && s.runtimes[p].allow.Some? && CanonicalItems(s.runtimes[p].allow.value).None?;
    if s.marker == BadMarker || malformed then (s, false)
    else if Importable(s, p).None? then (s, true)
    else if !op.sidecarWritten then (s, false)
    else (s.(sidecars := s.sidecars[p := Parsed(ListOf(Importable(s, p).value))]), true)
  }

  function Do(s: State, op: Op): (State, bool) {
    match op
    case Save(_, _, _, _) => DoSave(s, op)
    case Clear(_, _, _) => DoClear(s, op)
    case Migrate(_, _) => DoMigrate(s, op)
    case FinalizeMarker(written) =>
      if s.marker == BadMarker then (s, false)
      else if s.marker == Marked then (s, true)
      else if written then (s.(marker := Marked), true) else (s, false)
    case ApplyAll(broken, reached) =>
      if Prevalidated(s) then
        (s.(runtimes := map p | p in s.runtimes :: if p in reached && p !in broken then Projected(s, p) else s.runtimes[p]), s.runtimes.Keys <= reached)
      else (s, false)
    case EditRuntime(p, config) => (s.(runtimes := s.runtimes[p := config]), true)
  }

  class Store {
    var sidecars: map<Profile, Sidecar>
    var runtimes: map<Profile, Config>
    var marker: Marker

    constructor (initial: State)
      ensures Value() == initial
    {
      sidecars, runtimes, marker := initial.sidecars, initial.runtimes, initial.marker;
    }

    function Value(): State
      reads this
    {
      State(sidecars, runtimes, marker)
    }

    method SaveCommandAllowlist(p: Profile, commands: Raw, sidecarWritten: bool, runtimeWritten: bool) returns (ok: bool)
      modifies this
      ensures (Value(), ok) == Do(old(Value()), Save(p, commands, sidecarWritten, runtimeWritten))
    {
      if !commands.ListOf? { return false; }
      var canonical := CanonicalAllowlistItems(commands);
      hide CanonicalItems;
      if canonical.None? || !sidecarWritten { return false; }
      var items := ListOf(canonical.value);
      var config := WithAllow(RuntimeOf(Value(), p), Some(items));
      sidecars := sidecars[p := Parsed(items)];
      if !runtimeWritten { return false; }
      runtimes := runtimes[p := config];
      return true;
    }

    method ClearCommandAllowlist(p: Profile, sidecarDeleted: bool, runtimeWritten: bool) returns (ok: bool)
      modifies this
      ensures (Value(), ok) == Do(old(Value()), Clear(p, sidecarDeleted, runtimeWritten))
    {
      var config := WithAllow(RuntimeOf(Value(), p), None);
      if p in sidecars && !sidecarDeleted { return false; }
      sidecars := sidecars - {p};
      if !runtimeWritten { return false; }
      runtimes := runtimes[p := config];
      return true;
    }

    method MigrateExisting(p: Profile, sidecarWritten: bool) returns (ok: bool)
      modifies this
      ensures (Value(), ok) == Do(old(Value()), Migrate(p, sidecarWritten))
    {
      if marker == BadMarker { return false; }
      if marker == Marked { return true; }
      if p !in runtimes || runtimes[p].allow.None? { return true; }
      var items := CanonicalAllowlistItems(runtimes[p].allow.value);
      hide CanonicalItems;
      if items.None? { return false; }
      if items.value == [] || p in sidecars { return true; }
      if !sidecarWritten { return false; }
      sidecars := sidecars[p := Parsed(ListOf(items.value))];
      return true;
    }

    method FinalizeMigration(written: bool) returns (ok: bool)
      modifies this
      ensures (Value(), ok) == Do(old(Value()), FinalizeMarker(written))
    {
      if marker == BadMarker { return false; }
      if marker == Marked { return true; }
      if !written { return false; }
      marker := Marked;
      return true;
    }

    // One apply cycle: every sidecar is read before the first config is written.
    method ApplyAllSidecars(broken: set<Profile>, reached: set<Profile>) returns (ok: bool)
      modifies this
      ensures (Value(), ok) == Do(old(Value()), ApplyAll(broken, reached))
    {
      hide CanonicalItems, ReadSidecar, WithAllow;
      if marker == BadMarker { return false; }
      var unread := sidecars.Keys;
      while unread != {}
        invariant unread <= sidecars.Keys && Value() == old(Value())
        invariant forall p | p in sidecars && p !in unread :: ReadSidecar(sidecars[p]).Some?
        decreases unread
      {
        var p :| p in unread;
        if ReadSidecar(sidecars[p]).None? { return false; }
        unread := unread - {p};
      }
      var todo := runtimes.Keys * reached;
      while todo != {}
        invariant todo <= runtimes.Keys * reached && runtimes.Keys == old(runtimes).Keys
        invariant sidecars == old(sidecars) && marker == old(marker)
        invariant forall p | p in runtimes ::
          runtimes[p] == if p !in reached || p in broken || p in todo then old(runtimes)[p] else Projected(old(Value()), p)
        decreases todo
      {
        var p :| p in todo;
        todo := todo - {p};
        if p in broken { continue; }
        var items := if p in sidecars then ReadSidecar(sidecars[p]) else None;
        if items.None? {
          runtimes := runtimes[p := WithAllow(runtimes[p], None)];
        } else {
          runtimes := runtimes[p := WithAllow(runtimes[p], Some(ListOf(items.value)))];
        }
      }
      assert runtimes == map p | p in old(runtimes) :: if p in reached && p !in broken then Projected(old(Value()), p) else old(runtimes)[p];
      assert Prevalidated(old(Value()));
      return runtimes.Keys <= reached;
    }
  }

  // ----- single steps -----

  // A failed sidecar write or deletion leaves everything as it was.
  lemma SidecarFirst(s: State, op: Op)
    requires (op.Save? && !op.sidecarWritten) || (op.Clear? && op.profile in s.sidecars && !op.sidecarDeleted)
    ensures Do(s, op) == (s, false)
  {
  }

  // A sidecar is read exactly when it parses and holds a list without blank items; null is no list.
  lemma SidecarExact(file: Sidecar)
    ensures ReadSidecar(file).Some? <==>
      file.Parsed? && file.raw.ListOf? && forall item | item in file.raw.items :: !forall c | c in item :: IsSpace(c)
    ensures ReadSidecar(file).Some? ==> ReadSidecar(file) == CanonicalItems(file.raw)
  {
    hide CanonicalItems, IsSpace;
    if file.Parsed? { CanonicalExact(file.raw); }
  }

  // A cycle that meets one unreadable sidecar, of whatever profile, writes no config at all; otherwise
  // every runtime key it gets to equals its sidecar: absent to absent, an explicit empty list kept.
  lemma ApplyExact(s: State, broken: set<Profile>, reached: set<Profile>)
    ensures var (s', ok) := Do(s, ApplyAll(broken, reached));
      && (Prevalidated(s) <==> s.marker != BadMarker && forall p | p in s.sidecars :: ReadSidecar(s.sidecars[p]).Some?)
      && (!Prevalidated(s) ==> s' == s && !ok)
      && (Prevalidated(s) ==> (ok <==> s.runtimes.Keys <= reached))
      && (Prevalidated(s) ==> forall p | p in s.runtimes && (p !in reached || p in broken) :: s'.runtimes[p] == s.runtimes[p])
      && (Prevalidated(s) ==> forall p | p in s.runtimes && p in reached && p !in broken ::
            && s'.runtimes[p].rest == s.runtimes[p].rest
            && s'.runtimes[p].allow == if p in s.sidecars then Some(ListOf(ReadSidecar(s.sidecars[p]).value)) else None)
  {
    hide ReadSidecar;
  }

  // A save refuses anything but a list of items that are not blank; else it writes the canonical list to the
  // sidecar and then, if that worked, to the runtime key.  Nothing else changes.
  lemma SaveExact(s: State, p: Profile, commands: Raw, sidecarWritten: bool, runtimeWritten: bool)
    ensures var (s', ok) := Do(s, Save(p, commands, sidecarWritten, runtimeWritten));
      var accepted := commands.ListOf? && forall item | item in commands.items :: !BlankItem(item);
      && (ok <==> accepted && sidecarWritten && runtimeWritten)
      && (!accepted || !sidecarWritten ==> s' == s)
      && (accepted && sidecarWritten ==>
            && CanonicalItems(commands).Some?
            && s'.sidecars == s.sidecars[p := Parsed(ListOf(CanonicalItems(commands).value))]
            && s'.marker == s.marker && OthersKept(s, s', p) && RestKept(s, s', p)
            && (runtimeWritten ==> p in s'.runtimes && s'.runtimes[p].allow == Some(ListOf(CanonicalItems(commands).value)))
            && (!runtimeWritten ==> s'.runtimes == s.runtimes))
  {
    hide BlankItem, SortedOnce;
  }

  // The other profiles' runtime configs, and the rest of this one.
  ghost predicate OthersKept(s: State, s': State, p: Profile) {
    forall q: Profile | q != p :: (q in s'.runtimes <==> q in s.runtimes) && (q in s.runtimes ==> s'.runtimes[q] == s.runtimes[q])
  }

  ghost predicate RestKept(s: State, s': State, p: Profile) {
    p in s'.runtimes ==> s'.runtimes[p].rest == if p in s.runtimes then s.runtimes[p].rest else ""
  }

  // A clear deletes the sidecar and then, if there is none left, the runtime key.
  lemma ClearExact(s: State, p: Profile, deleted: bool, runtimeWritten: bool)
    ensures var (s', ok) := Do(s, Clear(p, deleted, runtimeWritten));
      var gone := p !in s.sidecars || deleted;
      && (ok <==> gone && runtimeWritten)
      && (!gone ==> s' == s)
      && (gone ==> s'.sidecars == s.sidecars - {p} && s'.marker == s.marker && OthersKept(s, s', p) && RestKept(s, s', p))
      && (gone && runtimeWritten ==> p in s'.runtimes && s'.runtimes[p].allow == None)
      && (gone && !runtimeWritten ==> s'.runtimes == s.runtimes)
  {
  }

  // Exactly when an old runtime value becomes a sidecar, which one, and when the migration is refused;
  // nothing else changes.
  lemma MigrateExact(s: State, p: Profile, written: bool)
    ensures var (s', ok) := Do(s, Migrate(p, written));
      var held := if s.marker == NoMarker && p in s.runtimes then s.runtimes[p].allow else None;
      var items := if held.Some? then CanonicalItems(held.value) else Some([]);
      var imported := items.Some? && items.value != [] && p !in s.sidecars;
      && s'.runtimes == s.runtimes && s'.marker == s.marker
      && s'.sidecars == (if imported && written then s.sidecars[p := Parsed(ListOf(items.value))] else s.sidecars)
      && (ok <==> s.marker != BadMarker && items.Some? && (imported ==> written))
  {
    hide CanonicalItems;
  }

  // The marker appears when it is written where there was none, and a malformed one is an error; nothing
  // else is touched.
  lemma MarkerExact(s: State, written: bool)
    ensures var (s', ok) := Do(s, FinalizeMarker(written));
      && s'.sidecars == s.sidecars && s'.runtimes == s.runtimes
      && (s'.marker == Marked <==> s.marker == Marked || (s.marker == NoMarker && written))
      && (s.marker == BadMarker ==> s'.marker == BadMarker)
      && (ok <==> s'.marker == Marked)
  {
  }

  // ----- runs -----

  ghost predicate Run(ss: seq<State>, ops: seq<Op>) {
    |ss| == |ops| + 1 && forall i | 0 <= i < |ops| :: ss[i + 1] == Do(ss[i], ops[i]).0
  }

  lemma MarkerStep(s: State, op: Op)
    requires s.marker == Marked
    ensures Do(s, op).0.marker == Marked
    ensures forall p | p !in s.sidecars && !(op.Save? && op.profile == p) :: p !in Do(s, op).0.sidecars
  {
  }

  // Once the marker is present it stays, and no step but a save creates a sidecar: a cleared list never
  // returns, whatever old runtime values survive or reappear.
  lemma {:induction false} ClearedStaysCleared(ss: seq<State>, ops: seq<Op>, i: nat, j: nat, p: Profile)
    requires Run(ss, ops) && i <= j < |ss| && ss[i].marker == Marked && p !in ss[i].sidecars
    requires forall k | i <= k < j :: !(ops[k].Save? && ops[k].profile == p)
    ensures ss[j].marker == Marked && p !in ss[j].sidecars
  {
    hide Do;
    if i < j {
      ClearedStaysCleared(ss, ops, i, j - 1, p);
      MarkerStep(ss[j - 1], ops[j - 1]);
    }
  }

  predicate Owns(op: Op, p: Profile) { (op.Save? || op.Clear?) && op.profile == p }

  lemma SidecarKept(s: State, op: Op, p: Profile)
    requires p in s.sidecars && !Owns(op, p)
    ensures p in Do(s, op).0.sidecars && Do(s, op).0.sidecars[p] == s.sidecars[p]
  {
  }

  lemma {:induction false} SidecarSurvives(ss: seq<State>, ops: seq<Op>, i: nat, j: nat, p: Profile)
    requires Run(ss, ops) && i <= j < |ss| && p in ss[i].sidecars
    requires forall k | i <= k < j :: !Owns(ops[k], p)
    ensures p in ss[j].sidecars && ss[j].sidecars[p] == ss[i].sidecars[p]
  {
    hide Do;
    if i < j {
      SidecarSurvives(ss, ops, i, j - 1, p);
      SidecarKept(ss[j - 1], ops[j - 1], p);
    }
  }

  // A save whose sidecar was written is repaired into the runtime by every later cycle that applies,
  // even if its own runtime write failed and the runtime was edited or replaced since.
  lemma SaveIsRepaired(ss: seq<State>, ops: seq<Op>, i: nat, j: nat, p: Profile)
    requires Run(ss, ops) && i < j < |ops| && ops[i].Save? && ops[i].profile == p && ops[i].sidecarWritten
    requires ops[i].commands.ListOf? && CanonicalItems(ops[i].commands).Some?
    requires forall k | i < k < j :: !Owns(ops[k], p)
    requires ops[j].ApplyAll? && Prevalidated(ss[j]) && p in ss[j].runtimes && p in ops[j].reached && p !in ops[j].broken
    ensures ss[j + 1].runtimes[p].allow == Some(ListOf(CanonicalItems(ops[i].commands).value))
  {
    hide CanonicalItems;
    CanonicalRoundTrip(ops[i].commands);
    assert ss[i + 1].sidecars[p] == Parsed(ListOf(CanonicalItems(ops[i].commands).value));
    SidecarSurvives(ss, ops, i + 1, j, p);
    ApplyExact(ss[j], ops[j].broken, ops[j].reached);
  }

  // A clear whose sidecar deletion succeeded is likewise carried into the runtime, once the marker is there.
  lemma ClearIsRepaired(ss: seq<State>, ops: seq<Op>, i: nat, j: nat, p: Profile)
    requires Run(ss, ops) && i < j < |ops| && ops[i].Clear? && ops[i].profile == p && ops[i].sidecarDeleted && ss[i].marker == Marked
    requires forall k | i < k < j :: !(ops[k].Save? && ops[k].profile == p)
    requires ops[j].ApplyAll? && Prevalidated(ss[j]) && p in ss[j].runtimes && p in ops[j].reached && p !in ops[j].broken
    ensures ss[j + 1].runtimes[p].allow == None
  {
    MarkerStep(ss[i], ops[i]);
    ClearedStaysCleared(ss, ops, i + 1, j, p);
    ApplyExact(ss[j], ops[j].broken, ops[j].reached);
  }

  // Exactly when a profile has a sidecar after a clear and the next migration: the clear could not delete
  // it; or there is no marker, the clear's runtime write failed, and a valid non-empty old value is imported.
  lemma ClearUndoneExact(s: State, p: Profile, deleted: bool, runtimeWritten: bool, sidecarWritten: bool)
    ensures p in Do(Do(s, Clear(p, deleted, runtimeWritten)).0, Migrate(p, sidecarWritten)).0.sidecars <==>
      || (p in s.sidecars && !deleted)
      || (s.marker == NoMarker && !runtimeWritten && sidecarWritten && p in s.runtimes && s.runtimes[p].allow.Some?
          && CanonicalItems(s.runtimes[p].allow.value).Some? && CanonicalItems(s.runtimes[p].allow.value).value != [])
  {
    hide CanonicalItems;
  }
}
