/** The settings panel: the default settings, loading saved settings over
    them, single-key updates, and the backup operations (export, import and
    clear-all) over local storage. Storage maps each key to the parsed value
    of the JSON text stored under it. */
module Settings {
  import opened Seqs
  import opened Values
  import opened Storage

  type Store = map<string, Value>

  /** The in-memory settings object and local storage, together. */
  datatype Dashboard = Dashboard(settings: seq<Member>, store: Store)

  /** The collections a backup carries, in payload order. */
  const CollectionKeys: seq<string> := [TasksKey, HabitsKey, LinksKey, NotesKey]

  /** Every key a component of the dashboard writes. */
  const AppKeys: set<string> := {TasksKey, HabitsKey, LinksKey, NotesKey, SettingsKey, ExcelFilesKey}

  /** The settings before anything is loaded. */
  const Defaults: seq<Member> := [
    Member("theme", Str("dark")),
    Member("autoSave", Bool(true)),
    Member("notifications", Bool(true)),
    Member("soundEnabled", Bool(true)),
    Member("pomodoroWork", Num(25)),
    Member("pomodoroBreak", Num(5)),
    Member("pomodoroLongBreak", Num(15)),
    Member("dailyGoal", Num(5)),
    Member("weekStart", Str("monday")),
    Member("timeFormat", Str("24h")),
    Member("dateFormat", Str("MM/DD/YYYY")),
    Member("backgroundColor", Str("default")),
    Member("accentColor", Str("purple")),
    Member("fontSize", Str("medium")),
    Member("compactMode", Bool(false)),
    Member("showAnalog", Bool(true)),
    Member("showSeconds", Bool(true)),
    Member("weatherLocation", Str("")),
    Member("weatherUnit", Str("celsius"))
  ]

  /** Settings that name every default key. */
  predicate HasDefaultKeys(s: seq<Member>) {
    forall k :: k in Keys(Defaults) ==> k in Keys(s)
  }

  // ---------------------------------------------------------------------
  // Loading and updating.

  /** The mount-time load: `saved` is the stored text's parse, `None` when
      nothing is stored. Saved keys override the defaults, the other keys
      keep their default; a text that does not parse leaves the defaults. */
  function LoadSettings(saved: Option<Parsed>): (r: seq<Member>)
    ensures saved.None? || saved.value.Malformed? ==> r == Defaults
    ensures saved.Some? && saved.value.Parsed? ==>
      var over := Spread(saved.value.value);
      && (forall k :: k in Keys(over) ==> Get(r, k) == Get(over, k))
      && (forall k :: k !in Keys(over) ==> Get(r, k) == Get(Defaults, k))
  {
    match saved
    case Some(Parsed(v)) => Merge(Defaults, Spread(v))
    case _ => Defaults
  }

  /** What the load reads from storage. */
  function SavedSettings(store: Store): Option<Parsed> {
    if SettingsKey in store then Some(Parsed(store[SettingsKey])) else None
  }

  /** Loaded settings always name every default key. */
  lemma LoadedHasDefaultKeys(saved: Option<Parsed>)
    ensures HasDefaultKeys(LoadSettings(saved))
  {
    var r := LoadSettings(saved);
    forall k | k in Keys(Defaults) ensures k in Keys(r) {
      GetSome(Defaults, k);
      GetSome(r, k);
      if saved.Some? && saved.value.Parsed? {
        GetSome(Spread(saved.value.value), k);
      }
    }
  }

  /** `saveSettings`: the object becomes the settings and is stored. */
  function SaveSettings(d: Dashboard, s: seq<Member>): (r: Dashboard)
    ensures r.settings == s
    ensures SettingsKey in r.store && r.store[SettingsKey] == Obj(s)
    ensures forall k :: k != SettingsKey ==> (k in r.store <==> k in d.store)
    ensures forall k :: k != SettingsKey && k in d.store ==> r.store[k] == d.store[k]
  {
    Dashboard(s, d.store[SettingsKey := Obj(s)])
  }

  /** `updateSetting`: exactly one key changes, and the result is stored. */
  function UpdateSetting(d: Dashboard, key: string, v: Value): (r: Dashboard)
    ensures Get(r.settings, key) == Some(v)
    ensures forall k :: k != key ==> Get(r.settings, k) == Get(d.settings, k)
    ensures Keys(r.settings) == if key in Keys(d.settings) then Keys(d.settings) else Keys(d.settings) + [key]
    ensures r.store == d.store[SettingsKey := Obj(r.settings)]
  {
    SaveSettings(d, Put(d.settings, key, v))
  }

  /** Updating a setting and loading the stored settings back reads the
      same value under every key, provided the settings named every default
      key. */
  lemma UpdateThenLoad(d: Dashboard, key: string, v: Value)
    requires HasDefaultKeys(d.settings)
    ensures var r := UpdateSetting(d, key, v);
      forall k :: Get(LoadSettings(SavedSettings(r.store)), k) == Get(r.settings, k)
  {
    var r := UpdateSetting(d, key, v);
    var loaded := LoadSettings(SavedSettings(r.store));
    assert Spread(r.store[SettingsKey]) == r.settings;
    forall k ensures Get(loaded, k) == Get(r.settings, k) {
      if k !in Keys(r.settings) {
        assert k !in Keys(Defaults);
        GetSome(Defaults, k);
        GetSome(r.settings, k);
      }
    }
  }

  // ---------------------------------------------------------------------
  // Backup.

  /** The stored value of a collection, or an empty array when absent. */
  function StoredOrEmpty(store: Store, k: string): Value {
    if k in store then store[k] else Arr([])
  }

  /** `exportAllData`'s payload object; `date` is the export timestamp. */
  function ExportPayload(d: Dashboard, date: string): (r: seq<Member>)
    ensures Keys(r) == CollectionKeys + ["settings", "exportDate"]
    ensures forall k :: k in CollectionKeys && k in d.store ==> Get(r, k) == Some(d.store[k])
    ensures forall k :: k in CollectionKeys && k !in d.store ==> Get(r, k) == Some(Arr([]))
    ensures Get(r, "settings") == Some(Obj(d.settings))
    ensures Get(r, "exportDate") == Some(Str(date))
  {
    var r := [
      Member(TasksKey, StoredOrEmpty(d.store, TasksKey)),
      Member(HabitsKey, StoredOrEmpty(d.store, HabitsKey)),
      Member(LinksKey, StoredOrEmpty(d.store, LinksKey)),
      Member(NotesKey, StoredOrEmpty(d.store, NotesKey)),
      Member("settings", Obj(d.settings)),
      Member("exportDate", Str(date))
    ];
    assert Keys(r) == CollectionKeys + ["settings", "exportDate"];
    assert NoDuplicates(Keys(r));
    GetDistinct(r, 0);
    GetDistinct(r, 1);
    GetDistinct(r, 2);
    GetDistinct(r, 3);
    GetDistinct(r, 4);
    GetDistinct(r, 5);
    r
  }

  /** Whether an imported object carries a truthy value under `k`. */
  predicate Carries(data: seq<Member>, k: string) {
    Get(data, k).Some? && Truthy(Get(data, k).value)
  }

  /** One `if (data.k) localStorage.setItem(k, ...)` line. */
  function WriteIfCarried(store: Store, data: seq<Member>, k: string): (r: Store)
    ensures Carries(data, k) ==> r == store[k := Get(data, k).value]
    ensures !Carries(data, k) ==> r == store
  {
    if Carries(data, k) then store[k := Get(data, k).value] else store
  }

  datatype ImportOutcome = ImportFailed | Imported(d: Dashboard)

  /** The four collection writes of an import, in source order. */
  function WriteCollections(store: Store, data: seq<Member>): Store {
    var s1 := WriteIfCarried(store, data, TasksKey);
    var s2 := WriteIfCarried(s1, data, HabitsKey);
    var s3 := WriteIfCarried(s2, data, LinksKey);
    WriteIfCarried(s3, data, NotesKey)
  }

  /** The four writes store exactly the carried collections. */
  lemma WriteCollectionsEffect(store: Store, data: seq<Member>)
    ensures var after := WriteCollections(store, data);
      && (forall k :: k in CollectionKeys && Carries(data, k) ==>
            k in after && after[k] == Get(data, k).value)
      && (forall k :: !(k in CollectionKeys && Carries(data, k)) ==>
            (k in after <==> k in store) && (k in store ==> after[k] == store[k]))
  {
  }

  /** `importData` once the file is read: a text that does not parse, or
      parses to `null` (whose first property read throws), writes nothing;
      otherwise each collection is written when the file carries it, and
      carried settings are merged over the current ones and saved. */
  function ImportData(d: Dashboard, file: Parsed): (r: ImportOutcome)
    ensures r.ImportFailed? <==> file.Malformed? || file.value.Null?
    ensures r.Imported? ==>
      var data := Spread(file.value);
      var after := r.d.store;
      && (forall k :: k in CollectionKeys && Carries(data, k) ==>
            k in after && after[k] == Get(data, k).value)
      && (forall k :: k in CollectionKeys && !Carries(data, k) ==>
            (k in after <==> k in d.store) && (k in d.store ==> after[k] == d.store[k]))
      && (forall k :: k !in CollectionKeys && k != SettingsKey ==>
            (k in after <==> k in d.store) && (k in d.store ==> after[k] == d.store[k]))
      && (Carries(data, "settings") ==>
            r.d.settings == Merge(d.settings, Spread(Get(data, "settings").value))
            && SettingsKey in after && after[SettingsKey] == Obj(r.d.settings))
      && (!Carries(data, "settings") ==>
            r.d.settings == d.settings
            && (SettingsKey in after <==> SettingsKey in d.store)
            && (SettingsKey in d.store ==> after[SettingsKey] == d.store[SettingsKey]))
  {
    match file
    case Malformed => ImportFailed
    case Parsed(v) =>
      if v.Null? then ImportFailed
      else
        var data := Spread(v);
        WriteCollectionsEffect(d.store, data);
        var written := Dashboard(d.settings, WriteCollections(d.store, data));
        if Carries(data, "settings") then
          Imported(SaveSettings(written, Merge(d.settings, Spread(Get(data, "settings").value))))
        else Imported(written)
  }

  /** Importing a backup into any dashboard restores the four collections
      as they were exported, provided each stored collection was truthy (the
      components store arrays), and merges the exported settings over the
      current ones; nothing else in storage changes. */
  lemma ExportThenImport(d: Dashboard, target: Dashboard, date: string)
    requires forall k :: k in CollectionKeys && k in d.store ==> Truthy(d.store[k])
    ensures var r := ImportData(target, Parsed(Obj(ExportPayload(d, date))));
      && r.Imported?
      && (forall k :: k in CollectionKeys ==> k in r.d.store && r.d.store[k] == StoredOrEmpty(d.store, k))
      && (forall k :: k in Keys(d.settings) ==> Get(r.d.settings, k) == Get(d.settings, k))
      && (forall k :: k !in CollectionKeys && k != SettingsKey ==>
            (k in r.d.store <==> k in target.store)
            && (k in target.store ==> r.d.store[k] == target.store[k]))
  {
    var payload := ExportPayload(d, date);
    PayloadCarries(d, date);
    var r := ImportData(target, Parsed(Obj(payload)));
    assert Spread(Obj(payload)) == payload;
  }

  /** A backup carries its four collections and its settings. */
  lemma PayloadCarries(d: Dashboard, date: string)
    requires forall k :: k in CollectionKeys && k in d.store ==> Truthy(d.store[k])
    ensures var payload := ExportPayload(d, date);
      && (forall k :: k in CollectionKeys ==> Carries(payload, k) && Get(payload, k).value == StoredOrEmpty(d.store, k))
      && Carries(payload, "settings") && Spread(Get(payload, "settings").value) == d.settings
  {
    var payload := ExportPayload(d, date);
    forall k | k in CollectionKeys
      ensures Carries(payload, k) && Get(payload, k).value == StoredOrEmpty(d.store, k)
    {
      assert Get(payload, k) == Some(StoredOrEmpty(d.store, k));
      assert Truthy(StoredOrEmpty(d.store, k));
    }
    assert Get(payload, "settings") == Some(Obj(d.settings));
  }

  // ---------------------------------------------------------------------
  // Clearing.

  /** The keys `clearAllData` removes. */
  const ClearedKeysAsWritten: set<string> := {TasksKey, HabitsKey, LinksKey, NotesKey, SettingsKey}

  /** `clearAllData` as written: once confirmed, the four collections and
      the settings are removed; the stored Excel files are not. */
  function ClearAllDataAsWritten(store: Store, confirmed: bool): (r: Store)
    ensures !confirmed ==> r == store
    ensures confirmed ==> forall k :: k in r <==> k in store && k !in ClearedKeysAsWritten
    ensures forall k :: k in r ==> k in store && r[k] == store[k]
  {
    if confirmed then store - ClearedKeysAsWritten else store
  }

  /** The Excel files survive clearing all data as written. */
  lemma ClearAllKeepsExcelFiles()
    ensures var store := map[ExcelFilesKey := Arr([Obj([Member("name", Str("book.xlsx"))])])];
      var r := ClearAllDataAsWritten(store, true);
      ExcelFilesKey in r && r[ExcelFilesKey] == store[ExcelFilesKey]
  {
    assert ExcelFilesKey !in ClearedKeysAsWritten;
  }

  /** `clearAllData` as evidently intended: every key the dashboard writes
      is removed, the Excel files included. */
  function ClearAllData(store: Store, confirmed: bool): (r: Store)
    ensures !confirmed ==> r == store
    ensures confirmed ==> forall k :: k in r <==> k in store && k !in AppKeys
    ensures forall k :: k in r ==> k in store && r[k] == store[k]
  {
    if confirmed then store - AppKeys else store
  }

  /** After a confirmed clear, the settings load as the defaults, a backup
      holds four empty collections, and no stored Excel file remains. */
  lemma ClearedDashboardIsFresh(d: Dashboard, date: string)
    ensures var cleared := ClearAllData(d.store, true);
      && LoadSettings(SavedSettings(cleared)) == Defaults
      && (forall k :: k in CollectionKeys ==> Get(ExportPayload(d.(store := cleared), date), k) == Some(Arr([])))
      && ExcelFilesKey !in cleared
  {
    var cleared := ClearAllData(d.store, true);
    assert SettingsKey !in cleared;
    forall k | k in CollectionKeys ensures k !in cleared {
      assert k in AppKeys;
    }
  }
}
