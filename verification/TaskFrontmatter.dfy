// Rewriting a task's frontmatter from the stored page and a set of updates: a dictionary edited in place.
module TaskFrontmatter {
  import opened Text

  // A frontmatter value: a bare date as the store returns it (with midnight UTC), or as it is written,
  // or anything else.
  datatype Value = StoredDate(day: string) | Text(text: string) | Tags(tags: seq<string>)

  type Frontmatter = map<string, Value>

  // Field names of the profile: logical name to frontmatter key.
  type Mappings = map<string, string>

  const PLANNED_WEEK := "planned_week"

  datatype Page = Page(kind: string, title: string, tags: seq<string>, frontmatter: Frontmatter)

  // Keys the profile cannot map a required field to.
  predicate Reserved(key: string) {
    || key == "type" || key == "tags" || key == "slug" || key == "ingested_via" || key == "ingested_at"
    || key == "source_kind" || key == "captured_via" || key == "captured_at"
  }

  predicate Required(field: string) {
    || field == "title" || field == "status" || field == "priority" || field == "due" || field == "scheduled"
    || field == "projects" || field == "completedDate"
  }

  // A validated profile maps every required field, to distinct keys, none of them reserved; what it says of
  // the archive tag and of recurrence is not compared with them.
  ghost predicate ValidMappings(m: Mappings) {
    && "title" in m && "scheduled" in m && "archiveTag" in m
    && (forall a | Required(a) :: a in m && !Reserved(m[a]) && (m[a] == "title" ==> a == "title"))
    && (forall a, b | Required(a) && Required(b) && a in m && b in m && a != b :: m[a] != m[b])
  }

  datatype Update = Update(field: string, value: Option<Value>)

  function Assign(fm: Frontmatter, key: string, value: Option<Value>): Frontmatter {
    if value.Some? then fm[key := value.value] else fm - {key}
  }

  predicate Modeled(m: Mappings, field: string) { field in m || field == "tags" || field == "title" }

  // The frontmatter key an update writes: its mapped key, or its own name.
  function KeyOf(m: Mappings, field: string): string {
    if field == "tags" || field !in m then field else m[field]
  }

  // Updates applied one by one.
  function Applied(fm: Frontmatter, m: Mappings, updates: seq<Update>): Frontmatter
    decreases |updates|
  {
    if |updates| == 0 then fm
    else Assign(Applied(fm, m, updates[..|updates| - 1]), KeyOf(m, updates[|updates| - 1].field), updates[|updates| - 1].value)
  }

  // Modeled fields first, then custom ones, each in the given order.
  function Select(m: Mappings, updates: seq<Update>, modeled: bool): seq<Update>
    decreases |updates|
  {
    if |updates| == 0 then []
    else
      var last := updates[|updates| - 1];
      Select(m, updates[..|updates| - 1], modeled) + if Modeled(m, last.field) == modeled then [last] else []
  }

  function Ordered(m: Mappings, updates: seq<Update>): seq<Update> {
    Select(m, updates, true) + Select(m, updates, false)
  }

  function Plain(value: Value): Value {
    if value.StoredDate? then Text(value.day) else value
  }

  predicate UpdatesTags(updates: seq<Update>) { exists u | u in updates :: u.field == "tags" }

  // The rest of the rewrite: the planning rule, then the page's own structural fields, then plain dates.
  function Finished(edited: Frontmatter, page: Page, m: Mappings, tagsUpdated: bool, dateKeys: set<string>): Frontmatter
    requires "title" in m && "scheduled" in m
  {
    var planned := if PLANNED_WEEK in edited && m["scheduled"] in edited then edited - {PLANNED_WEEK} else edited;
    var typed := planned["type" := Text(page.kind)]["title" := Text(page.title)];
    var titled := if m["title"] != "title" && m["title"] !in typed then typed[m["title"] := Text(page.title)] else typed;
    var tagged := if tagsUpdated then titled else titled["tags" := Tags(page.tags)];
    map key | key in tagged :: if key in dateKeys then Plain(tagged[key]) else tagged[key]
  }

  // What the rewritten frontmatter holds.
  function Rewritten(page: Page, m: Mappings, updates: seq<Update>, dateKeys: set<string>): Frontmatter
    requires "title" in m && "scheduled" in m
  {
    Finished(Applied(page.frontmatter, m, Ordered(m, updates)), page, m, UpdatesTags(updates), dateKeys)
  }

  method ReconstructFrontmatter(page: Page, m: Mappings, updates: seq<Update>, dateKeys: set<string>) returns (fm: Frontmatter)
    requires "title" in m && "scheduled" in m
    ensures fm == Rewritten(page, m, updates, dateKeys)
  {
    hide Applied, Modeled;
    var modeled, custom, tagsUpdated := [], [], false;
    for i := 0 to |updates|
      invariant modeled == Select(m, updates[..i], true) && custom == Select(m, updates[..i], false)
      invariant tagsUpdated <==> UpdatesTags(updates[..i])
    {
      assert updates[..i + 1][..i] == updates[..i];
      assert updates[..i + 1] == updates[..i] + [updates[i]];
      if Modeled(m, updates[i].field) {
        modeled := modeled + [updates[i]];
      } else {
        custom := custom + [updates[i]];
      }
      if updates[i].field == "tags" { tagsUpdated := true; }
    }
    assert updates[..|updates|] == updates;
    hide *;
    fm := ApplyAll(page.frontmatter, m, modeled + custom);
    OrderedIs(m, updates);
    RewrittenIs(page, m, updates, dateKeys);
    fm := Finish(fm, page, m, tagsUpdated, dateKeys);
  }

  lemma OrderedIs(m: Mappings, updates: seq<Update>)
    ensures Ordered(m, updates) == Select(m, updates, true) + Select(m, updates, false)
  {
  }

  lemma RewrittenIs(page: Page, m: Mappings, updates: seq<Update>, dateKeys: set<string>)
    requires "title" in m && "scheduled" in m
    ensures Rewritten(page, m, updates, dateKeys)
         == Finished(Applied(page.frontmatter, m, Ordered(m, updates)), page, m, UpdatesTags(updates), dateKeys)
  {
  }

  method Finish(edited: Frontmatter, page: Page, m: Mappings, tagsUpdated: bool, dateKeys: set<string>) returns (fm: Frontmatter)
    requires "title" in m && "scheduled" in m
    ensures fm == Finished(edited, page, m, tagsUpdated, dateKeys)
  {
    fm := edited;
    if PLANNED_WEEK in fm && m["scheduled"] in fm {
      fm := fm - {PLANNED_WEEK};
    }
    fm := fm["type" := Text(page.kind)]["title" := Text(page.title)];
    if m["title"] != "title" && m["title"] !in fm {
      fm := fm[m["title"] := Text(page.title)];
    }
    if !tagsUpdated {
      fm := fm["tags" := Tags(page.tags)];
    }
    fm := map key | key in fm :: if key in dateKeys then Plain(fm[key]) else fm[key];
  }

  method ApplyAll(start: Frontmatter, m: Mappings, updates: seq<Update>) returns (fm: Frontmatter)
    ensures fm == Applied(start, m, updates)
  {
    fm := start;
    for i := 0 to |updates|
      invariant fm == Applied(start, m, updates[..i])
    {
      assert updates[..i + 1][..i] == updates[..i];
      var update := updates[i];
      var key := if update.field == "tags" || update.field !in m then update.field else m[update.field];
      if update.value.None? {
        fm := fm - {key};
      } else {
        fm := fm[key := update.value.value];
      }
    }
    assert updates[..|updates|] == updates;
  }

  // ----- the planning rule -----

  lemma PlannedWeekIsOrdinary()
    ensures PLANNED_WEEK != "type" && PLANNED_WEEK != "title" && PLANNED_WEEK != "tags"
  {
    assert |PLANNED_WEEK| == 12;
  }

  // Presence of the two planning keys after the updates, before the rule is applied.
  predicate Scheduled(page: Page, m: Mappings, updates: seq<Update>)
    requires "scheduled" in m
  {
    m["scheduled"] in Applied(page.frontmatter, m, Ordered(m, updates))
  }

  // A rewrite leaves a task both scheduled and planned for a week exactly when the profile stores the
  // title under `planned_week` and the task is scheduled: the title is filled in after the rule.
  lemma BothPlanningKeysExact(page: Page, m: Mappings, updates: seq<Update>, dateKeys: set<string>)
    requires ValidMappings(m) && m["scheduled"] != PLANNED_WEEK
    ensures var fm := Rewritten(page, m, updates, dateKeys);
      PLANNED_WEEK in fm && m["scheduled"] in fm <==> m["title"] == PLANNED_WEEK && Scheduled(page, m, updates)
  {
    ScheduledKey(m);
    hide Applied, Ordered, Reserved, Required;
    PlannedWeekIsOrdinary();
  }

  lemma ScheduledKey(m: Mappings)
    requires ValidMappings(m)
    ensures m["scheduled"] != "type" && m["scheduled"] != "tags" && m["scheduled"] != "title" && m["scheduled"] != m["title"]
  {
    assert Required("scheduled") && Required("title");
    assert "scheduled" != "title" by { assert |"scheduled"| != |"title"|; }
    assert !Reserved(m["scheduled"]);
  }

  // Such a profile is accepted, and its scheduled tasks come out with both keys.
  lemma TitleAsPlannedWeekKeepsBoth(page: Page, dateKeys: set<string>) returns (m: Mappings)
    requires "scheduled" in page.frontmatter
    ensures ValidMappings(m) && m["scheduled"] != PLANNED_WEEK
    ensures var fm := Rewritten(page, m, [], dateKeys); PLANNED_WEEK in fm && m["scheduled"] in fm
  {
    PlannedWeekIsOrdinary();
    m := map["title" := PLANNED_WEEK, "status" := "status", "priority" := "priority", "due" := "due", "scheduled" := "scheduled",
             "projects" := "projects", "completedDate" := "completedDate", "archiveTag" := "archived"];
    MappingIsValid(m);
    assert Ordered(m, []) == [];
    assert Applied(page.frontmatter, m, []) == page.frontmatter;
    BothPlanningKeysExact(page, m, [], dateKeys);
  }

  lemma MappingIsValid(m: Mappings)
    requires m == map["title" := PLANNED_WEEK, "status" := "status", "priority" := "priority", "due" := "due", "scheduled" := "scheduled",
                      "projects" := "projects", "completedDate" := "completedDate", "archiveTag" := "archived"]
    ensures ValidMappings(m) && m["scheduled"] == "scheduled" && m["scheduled"] != PLANNED_WEEK
  {
    FieldNames();
    assert forall a | Required(a) && a != "title" :: m[a] == a;
    assert m["title"] == PLANNED_WEEK;
  }

  // The names differ: by their lengths, or their first characters.
  lemma FieldNames()
    ensures !Required(PLANNED_WEEK) && !Reserved(PLANNED_WEEK)
    ensures forall a | Required(a) :: !Reserved(a)
    ensures "title" != "status" && "title" != "priority" && "title" != "due" && "title" != "scheduled" && "title" != "projects"
    ensures "title" != "completedDate" && !Required("archiveTag")
    ensures "scheduled" != "status" && "scheduled" != "priority" && "scheduled" != "due" && "scheduled" != "projects"
    ensures "scheduled" != "completedDate" && "status" != "priority" && "status" != "due" && "status" != "projects"
    ensures "status" != "completedDate" && "priority" != "due" && "priority" != "projects" && "priority" != "completedDate"
    ensures "due" != "projects" && "due" != "completedDate" && "projects" != "completedDate"
  {
    assert |"title"| == 5 && |"status"| == 6 && |"priority"| == 8 && |"due"| == 3 && |"scheduled"| == 9 && |"projects"| == 8;
    assert |"archiveTag"| == 10 && |"completedDate"| == 13 && |PLANNED_WEEK| == 12 && |"type"| == 4 && |"tags"| == 4 && |"slug"| == 4;
    assert |"ingested_via"| == 12 && |"ingested_at"| == 11 && |"source_kind"| == 11 && |"captured_via"| == 12 && |"captured_at"| == 11;
    assert PLANNED_WEEK[0] == 'p' && "ingested_via"[0] == 'i' && "captured_via"[0] == 'c';
    assert "priority"[1] == 'r' && "projects"[2] == 'o' && "priority"[2] == 'i';
  }

  // ----- what a rewrite keeps -----

  lemma {:induction false} AppliedElsewhere(fm: Frontmatter, m: Mappings, updates: seq<Update>, key: string)
    requires forall u | u in updates :: KeyOf(m, u.field) != key
    ensures key in Applied(fm, m, updates) <==> key in fm
    ensures key in fm ==> Applied(fm, m, updates)[key] == fm[key]
    decreases |updates|
  {
    hide KeyOf;
    if |updates| > 0 {
      var init, last := updates[..|updates| - 1], updates[|updates| - 1];
      assert updates == init + [last];
      assert last in updates && forall u | u in init :: u in updates;
      AppliedElsewhere(fm, m, init, key);
    }
  }

  lemma {:induction false} SelectMembers(m: Mappings, updates: seq<Update>, modeled: bool)
    ensures forall u :: u in Select(m, updates, modeled) <==> u in updates && Modeled(m, u.field) == modeled
    decreases |updates|
  {
    hide Modeled;
    if |updates| > 0 {
      var init, last := updates[..|updates| - 1], updates[|updates| - 1];
      assert updates == init + [last];
      SelectMembers(m, init, modeled);
    }
  }

  // Every other key keeps its value (a stored date in its plain form): fields no update names, unknown
  // ones included.
  lemma UnnamedFieldsKept(page: Page, m: Mappings, updates: seq<Update>, dateKeys: set<string>, key: string)
    requires ValidMappings(m) && key != PLANNED_WEEK && key != m["title"] && key != "title" && key != "type" && key != "tags"
    requires forall u | u in updates :: KeyOf(m, u.field) != key
    ensures var fm := Rewritten(page, m, updates, dateKeys);
      && (key in fm <==> key in page.frontmatter)
      && (key in fm ==> fm[key] == if key in dateKeys then Plain(page.frontmatter[key]) else page.frontmatter[key])
  {
    hide Applied, KeyOf, Select;
    SelectMembers(m, updates, true);
    SelectMembers(m, updates, false);
    AppliedElsewhere(page.frontmatter, m, Ordered(m, updates), key);
  }

  // ----- what a rewrite writes -----

  // The page's own type and title are always there, and its tags unless they are updated; a title stored
  // under another key is filled in from the page where nothing else is.
  lemma StructuralFields(page: Page, m: Mappings, updates: seq<Update>, dateKeys: set<string>)
    requires ValidMappings(m)
    ensures var fm := Rewritten(page, m, updates, dateKeys);
      && "type" in fm && fm["type"] == Text(page.kind)
      && "title" in fm && fm["title"] == Text(page.title)
      && ((forall u | u in updates :: u.field != "tags") ==> "tags" in fm && fm["tags"] == Tags(page.tags))
      && m["title"] in fm
      && (m["title"] !in page.frontmatter && (forall u | u in updates :: KeyOf(m, u.field) != m["title"]) ==> fm[m["title"]] == Text(page.title))
  {
    hide Applied, Select;
    assert m["title"] != "type" && m["title"] != "tags";
    SelectMembers(m, updates, true);
    SelectMembers(m, updates, false);
    if m["title"] !in page.frontmatter && forall u | u in updates :: KeyOf(m, u.field) != m["title"] {
      AppliedElsewhere(page.frontmatter, m, Ordered(m, updates), m["title"]);
    }
  }

  // All updates of the list that write the key are this one.
  ghost predicate OnlyWriter(m: Mappings, updates: seq<Update>, key: string, update: Update) {
    update in updates && KeyOf(m, update.field) == key && forall u | u in updates && KeyOf(m, u.field) == key :: u == update
  }

  lemma {:induction false} AppliedWrites(fm: Frontmatter, m: Mappings, updates: seq<Update>, key: string, update: Update)
    requires OnlyWriter(m, updates, key, update)
    ensures key in Applied(fm, m, updates) <==> update.value.Some?
    ensures update.value.Some? ==> Applied(fm, m, updates)[key] == update.value.value
    decreases |updates|
  {
    hide KeyOf;
    var init, last := updates[..|updates| - 1], updates[|updates| - 1];
    assert updates == init + [last];
    if KeyOf(m, last.field) != key { AppliedWrites(fm, m, init, key, update); }
  }

  // An ordinary key comes out of the rest of the rewrite as it went in, a stored date in its plain form.
  lemma FinishedElsewhere(edited: Frontmatter, page: Page, m: Mappings, tagsUpdated: bool, dateKeys: set<string>, key: string)
    requires "title" in m && "scheduled" in m
    requires key != PLANNED_WEEK && key != m["title"] && key != "title" && key != "type" && key != "tags"
    ensures var fm := Finished(edited, page, m, tagsUpdated, dateKeys);
      && (key in fm <==> key in edited)
      && (key in fm ==> fm[key] == if key in dateKeys then Plain(edited[key]) else edited[key])
  {
  }

  // The key a field is written under; of one list, its update is the only writer there.
  ghost predicate WritesAlone(m: Mappings, updates: seq<Update>, update: Update, key: string) {
    && update in updates && update.field != "tags" && update.field != "title"
    && key == (if update.field in m then m[update.field] else update.field) && key != "tags" && key != "title"
    && (forall u | u in updates && u.field == update.field :: u == update)
    && (forall u | u in updates && u.field in m && update.field in m && m[u.field] == m[update.field] :: u == update)
    && (update.field in m ==> forall u | u in updates :: u.field in m || u.field != key)
  }

  lemma WriterOf(m: Mappings, updates: seq<Update>, update: Update, key: string)
    requires WritesAlone(m, updates, update, key)
    ensures update.field in m ==>
      OnlyWriter(m, Select(m, updates, true), key, update) && forall u | u in Select(m, updates, false) :: KeyOf(m, u.field) != key
    ensures update.field !in m ==> OnlyWriter(m, Select(m, updates, false), key, update)
  {
    hide Select;
    SelectMembers(m, updates, true);
    SelectMembers(m, updates, false);
  }

  // A field's update writes its value, or clears it, under its mapped key; a field the profile does not
  // know is written under its own name, and after the others, so it wins over a field mapped to that name.
  lemma UpdatedFieldHolds(page: Page, m: Mappings, updates: seq<Update>, dateKeys: set<string>, update: Update, key: string)
    requires ValidMappings(m) && WritesAlone(m, updates, update, key)
    requires key != PLANNED_WEEK && key != m["title"] && key != "type"
    ensures var fm := Rewritten(page, m, updates, dateKeys);
      && (key in fm <==> update.value.Some?)
      && (key in fm ==> fm[key] == if key in dateKeys then Plain(update.value.value) else update.value.value)
  {
    WriterOf(m, updates, update, key);
    assert key != "title" && key != "tags";
    hide ValidMappings, WritesAlone, Applied, Select, OnlyWriter, Finished, KeyOf, UpdatesTags;
    var modeled, custom := Select(m, updates, true), Select(m, updates, false);
    AppliedConcat(page.frontmatter, m, modeled, custom);
    if update.field in m {
      AppliedElsewhere(Applied(page.frontmatter, m, modeled), m, custom, key);
      AppliedWrites(page.frontmatter, m, modeled, key, update);
    } else {
      AppliedWrites(Applied(page.frontmatter, m, modeled), m, custom, key, update);
    }
    FinishedElsewhere(Applied(page.frontmatter, m, Ordered(m, updates)), page, m, UpdatesTags(updates), dateKeys, key);
  }

  // ----- planning transitions -----

  datatype Target = Day(day: Value) | Week(week: Value) | Backlog | NoWeek

  // The updates a planning change asks for: setting one target clears the other.
  function PlanningUpdates(target: Target): seq<Update> {
    match target
    case Day(day) => [Update("scheduled", Some(day)), Update(PLANNED_WEEK, None)]
    case Week(week) => [Update(PLANNED_WEEK, Some(week)), Update("scheduled", None)]
    case Backlog => [Update("scheduled", None), Update(PLANNED_WEEK, None)]
    case NoWeek => [Update(PLANNED_WEEK, None)]
  }

  predicate Touches(m: Mappings, update: Update)
    requires "scheduled" in m
  {
    KeyOf(m, update.field) == m["scheduled"] || KeyOf(m, update.field) == PLANNED_WEEK
  }

  lemma {:induction false} AppliedConcat(fm: Frontmatter, m: Mappings, a: seq<Update>, b: seq<Update>)
    ensures Applied(fm, m, a + b) == Applied(Applied(fm, m, a), m, b)
    decreases |b|
  {
    hide Assign, KeyOf;
    if |b| == 0 {
      assert a + b == a;
    } else {
      assert (a + b)[..|a + b| - 1] == a + b[..|b| - 1];
      AppliedConcat(fm, m, a, b[..|b| - 1]);
    }
  }

  lemma {:induction false} SelectConcat(m: Mappings, a: seq<Update>, b: seq<Update>, modeled: bool)
    ensures Select(m, a + b, modeled) == Select(m, a, modeled) + Select(m, b, modeled)
    decreases |b|
  {
    hide Modeled;
    if |b| == 0 {
      assert a + b == a;
    } else {
      assert (a + b)[..|a + b| - 1] == a + b[..|b| - 1];
      SelectConcat(m, a, b[..|b| - 1], modeled);
    }
  }

  // A planning change, together with any other field updates, leaves exactly the target it asks for.
  lemma PlanningChange(page: Page, m: Mappings, target: Target, others: seq<Update>, dateKeys: set<string>)
    requires ValidMappings(m) && PLANNED_WEEK !in m && m["title"] != PLANNED_WEEK && m["scheduled"] != PLANNED_WEEK
    requires forall u | u in others :: !Touches(m, u)
    requires dateKeys >= {m["scheduled"], PLANNED_WEEK}
    ensures var fm, S := Rewritten(page, m, PlanningUpdates(target) + others, dateKeys), m["scheduled"];
      match target
      case Day(day) => S in fm && fm[S] == Plain(day) && PLANNED_WEEK !in fm
      case Week(week) => S !in fm && PLANNED_WEEK in fm && fm[PLANNED_WEEK] == Plain(week)
      case Backlog => S !in fm && PLANNED_WEEK !in fm
      case NoWeek => PLANNED_WEEK !in fm && (S in fm <==> S in page.frontmatter) && (S in fm ==> fm[S] == Plain(page.frontmatter[S]))
  {
    hide Applied, Select, KeyOf;
    var updates, S := PlanningUpdates(target) + others, m["scheduled"];
    PlannedWeekIsOrdinary();
    SelectConcat(m, PlanningUpdates(target), others, true);
    SelectConcat(m, PlanningUpdates(target), others, false);
    PlanningSplit(m, target);
    var modeled, custom := Select(m, others, true), Select(m, others, false);
    SelectMembers(m, others, true);
    SelectMembers(m, others, false);
    var day, week := DayUpdates(target), WeekUpdates(target);
    assert Ordered(m, updates) == day + modeled + (week + custom);
    PlanningApplied(page.frontmatter, m, day, modeled, week, custom, S);
  }

  function DayUpdates(target: Target): seq<Update> {
    match target
    case Day(day) => [Update("scheduled", Some(day))]
    case NoWeek => []
    case _ => [Update("scheduled", None)]
  }

  function WeekUpdates(target: Target): seq<Update> {
    match target
    case Week(week) => [Update(PLANNED_WEEK, Some(week))]
    case _ => [Update(PLANNED_WEEK, None)]
  }

  lemma PlanningSplit(m: Mappings, target: Target)
    requires "scheduled" in m && PLANNED_WEEK !in m
    ensures Select(m, PlanningUpdates(target), true) == DayUpdates(target)
    ensures Select(m, PlanningUpdates(target), false) == WeekUpdates(target)
  {
    PlannedWeekIsOrdinary();
    var us := PlanningUpdates(target);
    assert Select(m, [], true) == [] && Select(m, [], false) == [];
    if |us| == 2 {
      assert us[..1] == [us[0]] && [us[0]][..0] == [];
    } else {
      assert us[..0] == [];
    }
  }

  lemma PlanningApplied(fm: Frontmatter, m: Mappings, day: seq<Update>, modeled: seq<Update>, week: seq<Update>, custom: seq<Update>, S: string)
    requires "scheduled" in m && S == m["scheduled"] && S != PLANNED_WEEK && PLANNED_WEEK !in m
    requires (forall u | u in modeled :: !Touches(m, u)) && (forall u | u in custom :: !Touches(m, u))
    requires |day| <= 1 && (|day| == 1 ==> day[0].field == "scheduled")
    requires |week| == 1 && week[0].field == PLANNED_WEEK
    ensures var after := Applied(fm, m, day + modeled + (week + custom));
      && (if |day| == 1 then (S in after <==> day[0].value.Some?) && (S in after ==> after[S] == day[0].value.value)
          else (S in after <==> S in fm) && (S in after ==> after[S] == fm[S]))
      && (PLANNED_WEEK in after <==> week[0].value.Some?)
      && (PLANNED_WEEK in after ==> after[PLANNED_WEEK] == week[0].value.value)
  {
    hide Applied, KeyOf;
    PlannedWeekIsOrdinary();
    PlanningKeys(m);
    AppliedConcat(fm, m, day + modeled, week + custom);
    AppliedConcat(fm, m, day, modeled);
    var first := Applied(fm, m, day);
    OneUpdate(fm, m, day);
    var second := Applied(first, m, modeled);
    AppliedElsewhere(first, m, modeled, S);
    AppliedConcat(second, m, week, custom);
    OneUpdate(second, m, week);
    var third := Applied(second, m, week);
    AppliedElsewhere(third, m, custom, S);
    AppliedElsewhere(third, m, custom, PLANNED_WEEK);
  }

  lemma OneUpdate(fm: Frontmatter, m: Mappings, us: seq<Update>)
    requires |us| <= 1
    ensures Applied(fm, m, us) == if |us| == 1 then Assign(fm, KeyOf(m, us[0].field), us[0].value) else fm
  {
    hide KeyOf, Assign;
    if |us| == 1 {
      assert us[..0] == [];
      assert Applied(fm, m, []) == fm;
    }
  }

  lemma PlanningKeys(m: Mappings)
    requires "scheduled" in m && PLANNED_WEEK !in m
    ensures KeyOf(m, "scheduled") == m["scheduled"] && KeyOf(m, PLANNED_WEEK) == PLANNED_WEEK
  {
    assert |"scheduled"| != |"tags"|;
  }
}
