/** The plugin manager's session: the catalog of discovered plugins, the
    enabled paths in load order, and the snapshot of that list taken at the
    last load or save. Every user action is a pure transition on this state. */
module PluginManager {
  import opened Wrappers
  import opened StatesCodec
  import opened PluginCatalog
  import opened IniConfig

  datatype Session = Session(catalog: Catalog, enabled: seq<string>, original: seq<string>)

  /** has_unsaved_changes: the enabled list differs from the snapshot. */
  predicate HasUnsavedChanges(s: Session) {
    s.enabled != s.original
  }

  predicate NoDuplicates(xs: seq<string>) {
    forall i, j :: 0 <= i < j < |xs| ==> xs[i] != xs[j]
  }

  // ---------------------------------------------------------------- load

  /** load_plugins: rebuild the catalog, read the enabled list from the
      configuration, and take the snapshot. A freshly loaded session has no
      unsaved changes, and every enabled entry is a well-formed path. */
  function Load(rootExists: bool, files: seq<PluginFile>, config: Option<Ini>): (r: Session)
    ensures !HasUnsavedChanges(r)
    ensures WellFormed(r.enabled)
    ensures KeysDistinct(r.catalog)
    ensures !rootExists ==> r.catalog == []
    ensures config.None? ==> r.enabled == []
  {
    var enabled := LoadEnabled(config);
    Session(FindAllPlugins(rootExists, files), enabled, enabled)
  }

  // ---------------------------------------------------------------- views

  /** The available list of update_listboxes: catalog entries whose path is
      not enabled, in catalog order. */
  function AvailableOf(c: Catalog, enabled: seq<string>): (r: Catalog)
    ensures forall e :: e in r <==> e in c && e.0 !in enabled
    ensures |r| <= |c|
  {
    if |c| == 0 then []
    else (if c[0].0 in enabled then [] else [c[0]]) + AvailableOf(c[1..], enabled)
  }

  function Available(s: Session): Catalog {
    AvailableOf(s.catalog, s.enabled)
  }

  /** The enabled list as displayed: each path's catalog name, or the path
      itself when the catalog does not know it. */
  function EnabledNames(s: Session): (r: seq<string>)
    ensures |r| == |s.enabled|
    ensures forall i :: 0 <= i < |r| && s.enabled[i] !in Paths(s.catalog) ==> r[i] == s.enabled[i]
    ensures forall i :: 0 <= i < |r| && s.enabled[i] in Paths(s.catalog) ==> (s.enabled[i], r[i]) in s.catalog
  {
    seq(|s.enabled|, i requires 0 <= i < |s.enabled| => Lookup(s.catalog, s.enabled[i]).GetOr(s.enabled[i]))
  }

  // ---------------------------------------------------------------- add

  /** Catalog entry `i` carries the selected name and is not enabled yet. */
  predicate Addable(s: Session, name: string, i: int) {
    0 <= i < |s.catalog| && s.catalog[i].1 == name && s.catalog[i].0 !in s.enabled
  }

  /** Entry `i` is the first addable one in catalog order. */
  predicate FirstAddable(s: Session, name: string, i: int) {
    Addable(s, name, i) && forall j :: 0 <= j < i ==> !Addable(s, name, j)
  }

  /** The search loop of add_plugin, from entry `from` on. */
  function FindAddable(s: Session, name: string, from: nat): (r: Option<nat>)
    requires from <= |s.catalog|
    ensures r.Some? ==> from <= r.value && Addable(s, name, r.value)
    ensures r.Some? ==> forall j :: from <= j < r.value ==> !Addable(s, name, j)
    ensures r.None? ==> forall j :: from <= j < |s.catalog| ==> !Addable(s, name, j)
    decreases |s.catalog| - from
  {
    if from == |s.catalog| then None
    else if Addable(s, name, from) then Some(from)
    else FindAddable(s, name, from + 1)
  }

  /** add_plugin: append the path of the first catalog entry with the
      selected name that is not enabled yet; with no such entry nothing
      changes. Existing entries keep their order. */
  function Add(s: Session, name: string): (r: Session)
    ensures r.catalog == s.catalog && r.original == s.original
    ensures r.enabled == s.enabled <==> forall j :: 0 <= j < |s.catalog| ==> !Addable(s, name, j)
    ensures r.enabled != s.enabled ==>
              exists i :: FirstAddable(s, name, i) && r.enabled == s.enabled + [s.catalog[i].0]
  {
    match FindAddable(s, name, 0)
    case None => s
    case Some(i) =>
      assert FirstAddable(s, name, i);
      s.(enabled := s.enabled + [s.catalog[i].0])
  }

  // ---------------------------------------------------------------- remove

  /** The selection must be a row of the enabled list. */
  predicate ValidSelection(s: Session, selection: Option<nat>) {
    selection.Some? ==> selection.value < |s.enabled|
  }

  /** remove_plugin: delete exactly the selected entry; the others keep
      their order. Without a selection nothing changes. */
  function Remove(s: Session, selection: Option<nat>): (r: Session)
    requires ValidSelection(s, selection)
    ensures r.catalog == s.catalog && r.original == s.original
    ensures selection.None? ==> r == s
    ensures selection.Some? ==>
              var i := selection.value;
              && |r.enabled| == |s.enabled| - 1
              && (forall j :: 0 <= j < i ==> r.enabled[j] == s.enabled[j])
              && (forall j :: i <= j < |r.enabled| ==> r.enabled[j] == s.enabled[j + 1])
              && multiset(r.enabled) + multiset{s.enabled[i]} == multiset(s.enabled)
  {
    match selection
    case None => s
    case Some(i) =>
      assert s.enabled == s.enabled[..i] + [s.enabled[i]] + s.enabled[i + 1..];
      s.(enabled := s.enabled[..i] + s.enabled[i + 1..])
  }

  // ---------------------------------------------------------------- move

  /** `b` is `a` with the neighbours at `i` and `i + 1` exchanged and every
      other position unchanged. */
  predicate SwappedAt(a: seq<string>, b: seq<string>, i: int) {
    && |b| == |a| && 0 <= i && i + 1 < |a|
    && b[i] == a[i + 1] && b[i + 1] == a[i]
    && forall j :: 0 <= j < |a| && j != i && j != i + 1 ==> b[j] == a[j]
  }

  function SwapNext(xs: seq<string>, i: nat): (r: seq<string>)
    requires i + 1 < |xs|
    ensures SwappedAt(xs, r, i)
    ensures multiset(r) == multiset(xs)
  {
    xs[i := xs[i + 1]][i + 1 := xs[i]]
  }

  /** move_up: swap the selected entry with the one above it; nothing
      happens without a selection or on the first row. The moved entry is
      found one row up afterwards. */
  function MoveUp(s: Session, selection: Option<nat>): (r: Session)
    requires ValidSelection(s, selection)
    ensures r.catalog == s.catalog && r.original == s.original
    ensures multiset(r.enabled) == multiset(s.enabled)
    ensures selection.None? || selection.value == 0 ==> r == s
    ensures selection.Some? && selection.value > 0 ==>
              SwappedAt(s.enabled, r.enabled, selection.value - 1)
  {
    if selection.None? || selection.value == 0 then s
    else s.(enabled := SwapNext(s.enabled, selection.value - 1))
  }

  /** move_down: swap the selected entry with the one below it; nothing
      happens without a selection or on the last row. */
  function MoveDown(s: Session, selection: Option<nat>): (r: Session)
    requires ValidSelection(s, selection)
    ensures r.catalog == s.catalog && r.original == s.original
    ensures multiset(r.enabled) == multiset(s.enabled)
    ensures selection.None? || selection.value == |s.enabled| - 1 ==> r == s
    ensures selection.Some? && selection.value < |s.enabled| - 1 ==>
              SwappedAt(s.enabled, r.enabled, selection.value)
  {
    if selection.None? || selection.value == |s.enabled| - 1 then s
    else s.(enabled := SwapNext(s.enabled, selection.value))
  }

  // ---------------------------------------------------------------- reset

  /** The default load order of the V-IKEMEN content pack, in four parts of
      at most eight paths so that each part can be checked on its own. */
  const DefaultPart1: seq<string> := [
    "data/VPFG_2.0/module/VP_Functions.zss",
    "data/guardbreak.zss",
    "data/score.zss",
    "data/training.zss",
    "data/VPFG_2.0/attackdata.zss",
    "data/VPFG_2.0/autostagecamera.zss",
    "data/VPFG_2.0/module/VP_Commentator.zss",
    "data/VPFG_2.0/module/VP_Action.zss"
  ]

  const DefaultPart2: seq<string> := [
    "data/VPFG_2.0/module/VP_Duel.zss",
    "data/VPFG_2.0/module/VP_Results.zss",
    "data/VPFG_2.0/module/VP_WallHit.zss",
    "data/VPFG_2.0/module/VP_CriticalHit.zss",
    "data/VPFG_2.0/module/VP_InkHitSpark.zss",
    "data/VPFG_2.0/module/VP_ComboBreaker.zss",
    "data/VPFG_2.0/module/VP_RushCancel.zss",
    "data/VPFG_2.0/module/VP_Echo.zss"
  ]

  const DefaultPart3: seq<string> := [
    "data/VPFG_2.0/module/VP_Aura.zss",
    "data/VPFG_2.0/module/VP_Dramatic.zss",
    "data/VPFG_2.0/module/VP_HeatDrive.zss",
    "data/VPFG_2.0/module/VP_Clash.zss",
    "data/VPFG_2.0/module/VP_Portrait.zss",
    "data/VPFG_2.0/module/VP_Tag.zss",
    "data/VPFG_2.0/module/VP_Win.zss",
    "data/VPFG_2.0/module/VP_Debuff.zss"
  ]

  const DefaultPart4: seq<string> := [
    "data/VPFG_2.0/module/VP_ComeBack.zss",
    "data/VPFG_2.0/module/VP_Item.zss",
    "data/VPFG_2.0/module/VP_Meta.zss",
    "data/VPFG_2.0/module/VP_Special.zss",
    "data/VPFG_2.0/module/VP_Stage.zss",
    "data/VPFG_2.0/module/VP_SpecialIntro.zss",
    "data/VPFG_2.0/module/VP_Intro.zss"
  ]

  const DefaultPlugins: seq<string> := DefaultPart1 + DefaultPart2 + DefaultPart3 + DefaultPart4

  /** The literal set_to_default parses. It is written here as the default
      paths joined with ", ", which is the same text character for
      character. */
  const DefaultLine: string := Serialize(DefaultPlugins)

  /** Each default path is a parser entry: it has no comma, and its ends
      are 'd' and 's', which are not whitespace. */
  lemma PartWellFormed(part: seq<string>)
    requires forall k :: 0 <= k < |part| ==> ',' !in part[k]
    requires forall k :: 0 <= k < |part| ==>
               |part[k]| > 0 && part[k][0] == 'd' && part[k][|part[k]| - 1] == 's'
    ensures WellFormed(part)
  {
  }

  lemma Part1WellFormed() ensures WellFormed(DefaultPart1) { PartWellFormed(DefaultPart1); }
  lemma Part2WellFormed() ensures WellFormed(DefaultPart2) { PartWellFormed(DefaultPart2); }
  lemma Part3WellFormed() ensures WellFormed(DefaultPart3) { PartWellFormed(DefaultPart3); }
  lemma Part4WellFormed() ensures WellFormed(DefaultPart4) { PartWellFormed(DefaultPart4); }

  lemma DefaultWellFormed()
    ensures WellFormed(DefaultPlugins)
  {
    Part1WellFormed();
    Part2WellFormed();
    Part3WellFormed();
    Part4WellFormed();
    WellFormedConcat(DefaultPart1, DefaultPart2);
    WellFormedConcat(DefaultPart1 + DefaultPart2, DefaultPart3);
    WellFormedConcat(DefaultPart1 + DefaultPart2 + DefaultPart3, DefaultPart4);
  }

  /** No element of `a` occurs in `b`. */
  predicate Disjoint(a: seq<string>, b: seq<string>) {
    forall i, j :: 0 <= i < |a| && 0 <= j < |b| ==> a[i] != b[j]
  }

  lemma DistinctConcat(a: seq<string>, b: seq<string>)
    requires NoDuplicates(a) && NoDuplicates(b) && Disjoint(a, b)
    ensures NoDuplicates(a + b)
  {
    forall i, j | 0 <= i < j < |a + b|
      ensures (a + b)[i] != (a + b)[j]
    {
      if j < |a| {
        assert (a + b)[i] == a[i] && (a + b)[j] == a[j];
      } else if i < |a| {
        assert (a + b)[i] == a[i] && (a + b)[j] == b[j - |a|];
      } else {
        assert (a + b)[i] == b[i - |a|] && (a + b)[j] == b[j - |a|];
      }
    }
  }

  lemma DisjointConcat(a: seq<string>, b: seq<string>, c: seq<string>)
    requires Disjoint(a, c) && Disjoint(b, c)
    ensures Disjoint(a + b, c)
  {
    forall i, j | 0 <= i < |a + b| && 0 <= j < |c|
      ensures (a + b)[i] != c[j]
    {
      if i < |a| {
        assert (a + b)[i] == a[i];
      } else {
        assert (a + b)[i] == b[i - |a|];
      }
    }
  }

  lemma Part1Distinct() ensures NoDuplicates(DefaultPart1) {}
  lemma Part2Distinct() ensures NoDuplicates(DefaultPart2) {}
  lemma Part3Distinct() ensures NoDuplicates(DefaultPart3) {}
  lemma Part4Distinct() ensures NoDuplicates(DefaultPart4) {}
  lemma Disjoint12() ensures Disjoint(DefaultPart1, DefaultPart2) {}
  lemma Disjoint13() ensures Disjoint(DefaultPart1, DefaultPart3) {}
  lemma Disjoint23() ensures Disjoint(DefaultPart2, DefaultPart3) {}
  lemma Disjoint14() ensures Disjoint(DefaultPart1, DefaultPart4) {}
  lemma Disjoint24() ensures Disjoint(DefaultPart2, DefaultPart4) {}
  lemma Disjoint34() ensures Disjoint(DefaultPart3, DefaultPart4) {}

  lemma DefaultDistinct()
    ensures |DefaultPlugins| == 31 && NoDuplicates(DefaultPlugins)
  {
    Part1Distinct(); Part2Distinct(); Part3Distinct(); Part4Distinct();
    Disjoint12(); Disjoint13(); Disjoint23(); Disjoint14(); Disjoint24(); Disjoint34();
    var p12 := DefaultPart1 + DefaultPart2;
    DistinctConcat(DefaultPart1, DefaultPart2);
    DisjointConcat(DefaultPart1, DefaultPart2, DefaultPart3);
    DistinctConcat(p12, DefaultPart3);
    DisjointConcat(DefaultPart1, DefaultPart2, DefaultPart4);
    DisjointConcat(p12, DefaultPart3, DefaultPart4);
    DistinctConcat(p12 + DefaultPart3, DefaultPart4);
  }

  /** The default list: 31 distinct well-formed paths, and exactly what the
      parser makes of the default line. */
  lemma DefaultLineParses()
    ensures |DefaultPlugins| == 31 && NoDuplicates(DefaultPlugins)
    ensures Parse(DefaultLine) == DefaultPlugins
  {
    DefaultWellFormed();
    DefaultDistinct();
    SerializeParse(DefaultPlugins);
  }

  /** set_to_default: the enabled list becomes the default list whatever it
      was before; the snapshot is untouched, so the session is dirty exactly
      when the snapshot differs from the default list. */
  function SetToDefault(s: Session): (r: Session)
    ensures r.enabled == DefaultPlugins
    ensures r.catalog == s.catalog && r.original == s.original
    ensures HasUnsavedChanges(r) <==> s.original != DefaultPlugins
  {
    DefaultLineParses();
    s.(enabled := Parse(DefaultLine))
  }

  // ---------------------------------------------------------------- save

  datatype SaveOutcome = Saved(session: Session, written: Ini) | SaveFailed(session: Session)

  /** save_config. `onDisk` is what the configuration parser reads from the
      file before writing (an empty Ini when the file is missing, None when
      reading raised); `writeOk` says whether writing the file back
      succeeded. On success the file holds the serialized list under
      `Common`/`States` and the snapshot is reset; on failure the session is
      left exactly as it was. */
  function Save(s: Session, onDisk: Option<Ini>, writeOk: bool): (r: SaveOutcome)
    ensures r.SaveFailed? <==> onDisk.None? || !writeOk
    ensures r.session.catalog == s.catalog && r.session.enabled == s.enabled
    ensures r.SaveFailed? ==> r.session == s
    ensures r.Saved? ==> !HasUnsavedChanges(r.session)
    ensures r.Saved? ==> && CommonSection in r.written && StatesKey in r.written[CommonSection]
                         && r.written[CommonSection][StatesKey] == Serialize(s.enabled)
    ensures r.Saved? ==> forall sec :: sec in onDisk.value && sec != CommonSection ==>
                            sec in r.written && r.written[sec] == onDisk.value[sec]
  {
    match onDisk
    case None => SaveFailed(s)
    case Some(ini) =>
      if !writeOk then SaveFailed(s)
      else Saved(s.(original := s.enabled), StoreStates(ini, Serialize(s.enabled)))
  }

  // ---------------------------------------------------------------- properties

  /** Add offers exactly the available entries: it changes the list iff an
      available entry carries the selected name, and then it appends the
      path of such an entry. */
  lemma AddMatchesAvailable(s: Session, name: string)
    ensures Add(s, name).enabled != s.enabled <==> exists e :: e in Available(s) && e.1 == name
    ensures Add(s, name).enabled != s.enabled ==>
              exists e :: e in Available(s) && e.1 == name && Add(s, name).enabled == s.enabled + [e.0]
  {
    if exists e :: e in Available(s) && e.1 == name {
      var e :| e in Available(s) && e.1 == name;
      var j :| 0 <= j < |s.catalog| && s.catalog[j] == e;
      assert Addable(s, name, j);
    }
    if Add(s, name).enabled != s.enabled {
      var i :| FirstAddable(s, name, i) && Add(s, name).enabled == s.enabled + [s.catalog[i].0];
      assert s.catalog[i] in Available(s);
    }
  }

  /** Add never creates a duplicate: a list without repeats stays without
      repeats, and existing entries keep their positions. */
  lemma AddNoDuplicates(s: Session, name: string)
    requires NoDuplicates(s.enabled)
    ensures NoDuplicates(Add(s, name).enabled)
    ensures Add(s, name).enabled[..|s.enabled|] == s.enabled
  {
    var r := Add(s, name);
    if r.enabled != s.enabled {
      var i :| FirstAddable(s, name, i) && r.enabled == s.enabled + [s.catalog[i].0];
      assert r.enabled[..|s.enabled|] == s.enabled;
    }
  }

  /** Adding the same name twice is adding it once, provided no two catalog
      entries share that name (the action selects by display name). */
  lemma AddIdempotent(s: Session, name: string)
    requires forall i, j ::
               (0 <= i < |s.catalog| && 0 <= j < |s.catalog| && s.catalog[i].1 == name && s.catalog[j].1 == name)
               ==> i == j
    ensures Add(Add(s, name), name) == Add(s, name)
  {
    var r := Add(s, name);
    if r.enabled != s.enabled {
      var i :| FirstAddable(s, name, i) && r.enabled == s.enabled + [s.catalog[i].0];
      forall j | 0 <= j < |r.catalog|
        ensures !Addable(r, name, j)
      {
        if r.catalog[j].1 == name {
          assert j == i;
          assert r.enabled[|s.enabled|] == s.catalog[i].0;
        }
      }
    } else {
      assert r == s;
    }
  }

  /** Two plugins with the same display name: the first add enables the
      first one in catalog order, and a second add of the same name enables
      the other, so add is not idempotent by name. */
  lemma AddSameNameTwice(p1: string, p2: string, n: string)
    requires p1 == "data/a/common.zss" && p2 == "data/b/common.zss" && n == "common.zss"
    ensures var s := Session([(p1, n), (p2, n)], [], []);
            && Add(s, n).enabled == [p1]
            && Add(Add(s, n), n).enabled == [p1, p2]
  {
    var s := Session([(p1, n), (p2, n)], [], []);
    assert FirstAddable(s, n, 0);
    var s1 := Add(s, n);
    assert s1.enabled == [p1];
    assert !Addable(s1, n, 0);
    assert FirstAddable(s1, n, 1);
  }

  /** Removing the entry an add just appended undoes the add. */
  lemma AddThenRemove(s: Session, name: string)
    requires Add(s, name).enabled != s.enabled
    ensures ValidSelection(Add(s, name), Some(|s.enabled|))
    ensures Remove(Add(s, name), Some(|s.enabled|)) == s
  {
    var r := Add(s, name);
    var i :| FirstAddable(s, name, i) && r.enabled == s.enabled + [s.catalog[i].0];
    assert r.enabled[..|s.enabled|] + r.enabled[|s.enabled| + 1..] == s.enabled;
  }

  /** Exchanging the same neighbours twice restores the list. */
  lemma SwapTwice(xs: seq<string>, i: nat)
    requires i + 1 < |xs|
    ensures SwapNext(SwapNext(xs, i), i) == xs
  {
    var ys := SwapNext(SwapNext(xs, i), i);
    assert forall j :: 0 <= j < |xs| ==> ys[j] == xs[j];
  }

  /** Moving an entry up and then down again restores the session,
      snapshot comparison included: a session without unsaved changes is
      clean again afterwards. */
  lemma MoveUpThenDown(s: Session, i: nat)
    requires 0 < i < |s.enabled|
    ensures MoveDown(MoveUp(s, Some(i)), Some(i - 1)) == s
    ensures !HasUnsavedChanges(s) ==> !HasUnsavedChanges(MoveDown(MoveUp(s, Some(i)), Some(i - 1)))
  {
    var t := MoveUp(s, Some(i));
    assert t == s.(enabled := SwapNext(s.enabled, i - 1));
    assert MoveDown(t, Some(i - 1)) == t.(enabled := SwapNext(t.enabled, i - 1));
    SwapTwice(s.enabled, i - 1);
  }

  /** Moving an entry down and then up again restores the session. */
  lemma MoveDownThenUp(s: Session, i: nat)
    requires i + 1 < |s.enabled|
    ensures MoveUp(MoveDown(s, Some(i)), Some(i + 1)) == s
  {
    SwapTwice(s.enabled, i);
  }

  /** Moving row `i` up is the same exchange as moving row `i - 1` down. */
  lemma MoveUpIsMoveDown(s: Session, i: nat)
    requires 0 < i < |s.enabled|
    ensures MoveUp(s, Some(i)) == MoveDown(s, Some(i - 1))
  {
  }

  /** A successful save followed by a reload of the written file gives the
      enabled list back exactly when its entries are well formed, and the
      saved session is clean. */
  lemma SaveThenReload(s: Session, ini: Ini)
    ensures Save(s, Some(ini), true).Saved?
    ensures !HasUnsavedChanges(Save(s, Some(ini), true).session)
    ensures LoadEnabled(Some(Save(s, Some(ini), true).written)) == s.enabled <==> WellFormed(s.enabled)
  {
    StoreThenLoad(ini, s.enabled);
  }

  // ---------------------------------------------------------------- runs of actions

  /** The user actions that change the enabled list. */
  datatype Action =
    | AddByName(name: string)
    | RemoveAt(selection: Option<nat>)
    | MoveUpAt(selection: Option<nat>)
    | MoveDownAt(selection: Option<nat>)
    | ResetToDefault

  /** An action's selection is a row of the enabled list. */
  predicate Allowed(s: Session, a: Action) {
    match a
    case AddByName(_) => true
    case RemoveAt(sel) => ValidSelection(s, sel)
    case MoveUpAt(sel) => ValidSelection(s, sel)
    case MoveDownAt(sel) => ValidSelection(s, sel)
    case ResetToDefault => true
  }

  function Apply(s: Session, a: Action): (r: Session)
    requires Allowed(s, a)
    ensures r.catalog == s.catalog && r.original == s.original
  {
    match a
    case AddByName(n) => Add(s, n)
    case RemoveAt(sel) => Remove(s, sel)
    case MoveUpAt(sel) => MoveUp(s, sel)
    case MoveDownAt(sel) => MoveDown(s, sel)
    case ResetToDefault => SetToDefault(s)
  }

  predicate ValidRun(s: Session, acts: seq<Action>)
    decreases |acts|
  {
    |acts| == 0 || (Allowed(s, acts[0]) && ValidRun(Apply(s, acts[0]), acts[1..]))
  }

  function Run(s: Session, acts: seq<Action>): (r: Session)
    requires ValidRun(s, acts)
    ensures r.catalog == s.catalog && r.original == s.original
    decreases |acts|
  {
    if |acts| == 0 then s else Run(Apply(s, acts[0]), acts[1..])
  }

  /** Every catalog path is something the parser could have produced. */
  predicate CatalogPathsAreEntries(c: Catalog) {
    forall i :: 0 <= i < |c| ==> IsEntry(c[i].0)
  }

  /** One action keeps the enabled list well formed when the catalog's paths are. */
  lemma ApplyKeepsWellFormed(s: Session, a: Action)
    requires Allowed(s, a) && WellFormed(s.enabled) && CatalogPathsAreEntries(s.catalog)
    ensures WellFormed(Apply(s, a).enabled)
  {
    var r := Apply(s, a);
    match a
    case AddByName(n) =>
      if r.enabled != s.enabled {
        var i :| FirstAddable(s, n, i) && r.enabled == s.enabled + [s.catalog[i].0];
      }
    case RemoveAt(sel) =>
    case MoveUpAt(sel) =>
    case MoveDownAt(sel) =>
    case ResetToDefault =>
      DefaultWellFormed();
  }

  /** Any run of actions keeps the enabled list well formed. */
  lemma {:induction false} RunKeepsWellFormed(s: Session, acts: seq<Action>)
    requires ValidRun(s, acts) && WellFormed(s.enabled) && CatalogPathsAreEntries(s.catalog)
    ensures WellFormed(Run(s, acts).enabled)
    decreases |acts|
  {
    if |acts| > 0 {
      ApplyKeepsWellFormed(s, acts[0]);
      RunKeepsWellFormed(Apply(s, acts[0]), acts[1..]);
    }
  }

  /** What is saved is what is loaded back: after loading, any run of user
      actions and a successful save, reading the written configuration again
      gives exactly the enabled list of the session, and the session is clean.
      The one condition is that discovery produced paths the list format can
      carry (no comma, no whitespace at either end). */
  lemma SavedListReloads(rootExists: bool, files: seq<PluginFile>, config: Option<Ini>,
                         acts: seq<Action>, ini: Ini)
    requires CatalogPathsAreEntries(FindAllPlugins(rootExists, files))
    requires ValidRun(Load(rootExists, files, config), acts)
    ensures var s := Run(Load(rootExists, files, config), acts);
            var out := Save(s, Some(ini), true);
            && out.Saved? && !HasUnsavedChanges(out.session)
            && LoadEnabled(Some(out.written)) == s.enabled
  {
    var s0 := Load(rootExists, files, config);
    RunKeepsWellFormed(s0, acts);
    SaveThenReload(Run(s0, acts), ini);
  }

  /** The condition on the catalog is needed. A discovered file whose path
      holds a comma can be enabled and saved, but the saved line reads back
      as different paths: a path `a,b` whose two halves are parser entries
      is written as it is and loads again as `a` and `b`. */
  lemma CommaPathSplitsOnReload(f: PluginFile, a: string, b: string, ini: Ini)
    requires IsEntry(a) && IsEntry(b)
    requires f.relPath == a + "," + b && '\\' !in f.relPath
    requires f.firstLine.None?
    ensures var s := Load(true, [f], None);
            var t := Add(s, f.baseName);
            var out := Save(t, Some(ini), true);
            && !CatalogPathsAreEntries(s.catalog)
            && t.enabled == [f.relPath]
            && out.Saved? && out.written[CommonSection][StatesKey] == f.relPath
            && LoadEnabled(Some(out.written)) == [a, b]
            && LoadEnabled(Some(out.written)) != t.enabled
  {
    var p := f.relPath;
    SingleCatalog(f);
    var s := Load(true, [f], None);
    assert p[|a|] == ',';
    AddToSingle(s, p, f.baseName);
    SaveCommaPath(Add(s, f.baseName), a, b, ini);
  }

  /** Saving a single enabled path `a,b` writes it unchanged, and the line
      reloads as `a` and `b`. */
  lemma SaveCommaPath(t: Session, a: string, b: string, ini: Ini)
    requires IsEntry(a) && IsEntry(b) && t.enabled == [a + "," + b]
    ensures var out := Save(t, Some(ini), true);
            && out.Saved? && out.written[CommonSection][StatesKey] == a + "," + b
            && LoadEnabled(Some(out.written)) == [a, b]
  {
    ParseTwoEntries(a, b);
  }

  /** The same with a concrete file: `data/a,b.zss` is saved as
      `States = data/a,b.zss` and reloads as `data/a` and `b.zss`. */
  lemma CommaPathExample(f: PluginFile, ini: Ini)
    requires f == PluginFile("data/a,b.zss", "a,b.zss", None, None)
    requires ini == map[]
    ensures var t := Add(Load(true, [f], None), "a,b.zss");
            var out := Save(t, Some(ini), true);
            && t.enabled == ["data/a,b.zss"]
            && out.Saved? && out.written[CommonSection][StatesKey] == "data/a,b.zss"
            && LoadEnabled(Some(out.written)) == ["data/a", "b.zss"]
  {
    var a, b := "data/a", "b.zss";
    assert a + "," + b == f.relPath;
    assert IsEntry(a) && IsEntry(b);
    assert forall i :: 0 <= i < |f.relPath| ==> f.relPath[i] != '\\';
    CommaPathSplitsOnReload(f, a, b, ini);
  }

  /** With one catalog entry and nothing enabled, adding by its name enables its path. */
  lemma AddToSingle(s: Session, p: string, n: string)
    requires s.catalog == [(p, n)] && s.enabled == []
    ensures Add(s, n).enabled == [p]
  {
    assert FirstAddable(s, n, 0);
  }

  /** A single file with an unreadable first line and a path without
      backslashes is catalogued under that path and its base name. */
  lemma SingleCatalog(f: PluginFile)
    requires '\\' !in f.relPath && f.firstLine.None?
    ensures FindAllPlugins(true, [f]) == [(f.relPath, f.baseName)]
  {
    NormalizeIdempotent(f.relPath);
    PluginTitle.TitleFallbacks(f.firstLine, f.secondLine, f.baseName, PluginTitle.NotTitles);
    var e := (Key(f), DisplayName(f));
    assert Entries([f]) == [e];
    var none: seq<Entry> := [];
    assert [e][..0] == none;
    assert Assign([e]) == Put([], e.0, e.1) == [e];
  }

  // ---------------------------------------------------------------- a worked session

  /** Two plugin files: `a.zss` titled by its first-line comment, and
      `sub\b.zss` (a Windows path) whose first line is code. The configuration
      enables `a.zss`. Loading, adding `b.zss` by its displayed name and saving
      writes `a.zss, sub/b.zss`. */
  lemma WorkedSession(a: PluginFile, b: PluginFile, config: Ini)
    requires a == PluginFile("a.zss", "a.zss", Some("# Alpha\n"), Some(""))
    requires b == PluginFile("sub\\b.zss", "b.zss", Some("x = 1\n"), None)
    requires config == map["Common" := map["States" := "a.zss"]]
    ensures var s := Load(true, [a, b], Some(config));
            && s.catalog == [("a.zss", "Alpha"), ("sub/b.zss", "b.zss")]
            && s.enabled == ["a.zss"]
            && Add(s, "b.zss").enabled == ["a.zss", "sub/b.zss"]
            && Save(Add(s, "b.zss"), Some(config), true).written[CommonSection][StatesKey] == "a.zss, sub/b.zss"
  {
    WorkedCatalog(a, b);
    WorkedStates(config);
    var s := Load(true, [a, b], Some(config));
    WorkedAdd(s);
    WorkedLine(Add(s, "b.zss").enabled);
  }

  lemma WorkedKeys(a: PluginFile, b: PluginFile)
    requires a.relPath == "a.zss" && b.relPath == "sub\\b.zss"
    ensures Key(a) == "a.zss" && Key(b) == "sub/b.zss"
  {
    var p, q := a.relPath, b.relPath;
    assert forall i :: 0 <= i < |p| ==> p[i] != '\\';
    var r := NormalizePath(q);
    assert q[3] == '\\';
    assert r[0] == 's' && r[1] == 'u' && r[2] == 'b' && r[3] == '/';
  }

  lemma WorkedTitleA(a: PluginFile)
    requires a == PluginFile("a.zss", "a.zss", Some("# Alpha\n"), Some(""))
    ensures DisplayName(a) == "Alpha"
  {
    var sp, t, nl := " ", "Alpha", "\n";
    assert "" + "#" + sp + t + nl == a.firstLine.value;
    PluginTitle.LowerAlpha();
    assert t[0] != '=';
    PluginTitle.TitleOfComment("", sp, t, nl, a.secondLine, a.baseName, PluginTitle.NotTitles);
  }

  lemma WorkedTitleB(b: PluginFile)
    requires b == PluginFile("sub\\b.zss", "b.zss", Some("x = 1\n"), None)
    ensures DisplayName(b) == "b.zss"
  {
    var code, nl := "x = 1", "\n";
    assert "" + code + nl == b.firstLine.value;
    Text.StripPadded("", code, nl);
    PluginTitle.TitleFallbacks(b.firstLine, b.secondLine, b.baseName, PluginTitle.NotTitles);
  }

  lemma WorkedCatalog(a: PluginFile, b: PluginFile)
    requires a == PluginFile("a.zss", "a.zss", Some("# Alpha\n"), Some(""))
    requires b == PluginFile("sub\\b.zss", "b.zss", Some("x = 1\n"), None)
    ensures FindAllPlugins(true, [a, b]) == [("a.zss", "Alpha"), ("sub/b.zss", "b.zss")]
  {
    WorkedKeys(a, b);
    WorkedTitleA(a);
    WorkedTitleB(b);
    BuildTwo(a, b);
  }

  /** Two files with different keys give two entries in walk order. */
  lemma BuildTwo(a: PluginFile, b: PluginFile)
    requires Key(a) != Key(b)
    ensures Build([a, b]) == [(Key(a), DisplayName(a)), (Key(b), DisplayName(b))]
  {
    var e1, e2 := (Key(a), DisplayName(a)), (Key(b), DisplayName(b));
    assert Entries([a, b]) == [e1, e2];
    AssignTwo(e1, e2);
  }

  /** Assigning two different paths gives two entries in assignment order. */
  lemma AssignTwo(e1: Entry, e2: Entry)
    requires e1.0 != e2.0
    ensures Assign([e1, e2]) == [e1, e2]
  {
    assert [e1, e2][..1] == [e1];
    assert [e1][..0] == [];
    assert Assign([e1]) == Put([], e1.0, e1.1) == [e1];
    assert [e1][1..] == [];
    assert Put([e1], e2.0, e2.1) == [e1] + Put([], e2.0, e2.1);
  }

  lemma WorkedStates(config: Ini)
    requires config == map["Common" := map["States" := "a.zss"]]
    ensures LoadEnabled(Some(config)) == ["a.zss"]
  {
    var e := config[CommonSection][StatesKey];
    assert e[0] == 'a' && e[|e| - 1] == 's';
    assert forall i :: 0 <= i < |e| ==> e[i] != ',';
    assert IsEntry(e);
    SerializeParse([e]);
  }

  lemma WorkedAdd(s: Session)
    requires s.catalog == [("a.zss", "Alpha"), ("sub/b.zss", "b.zss")] && s.enabled == ["a.zss"]
    ensures Add(s, "b.zss").enabled == ["a.zss", "sub/b.zss"]
  {
    assert !Addable(s, "b.zss", 0);
    assert FirstAddable(s, "b.zss", 1);
  }

  lemma WorkedLine(xs: seq<string>)
    requires xs == ["a.zss", "sub/b.zss"]
    ensures Serialize(xs) == "a.zss, sub/b.zss"
  {
    var sep, x, y := ", ", xs[0], xs[1];
    assert xs[1..] == [y];
    assert Text.Join(sep, [y]) == y;
    assert Serialize(xs) == x + sep + y;
  }
}
