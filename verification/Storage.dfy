/** The extension's store: session, settings, history and a cache with expiry, each kept under its own
  key of the browser's storage area.  Every call is one atomic step. */
module Storage {
  import opened Numerals
  import opened Wrappers

  /** A stored JSON value; objects and arrays are kept as their text. */
  datatype Value = Null | Bool(b: bool) | Num(x: real) | Text(s: string) | Object(json: string) {
    predicate Truthy() {
      match this
      case Null => false
      case Bool(b) => b
      case Num(x) => x != 0.0
      case Text(s) => s != ""
      case Object(_) => true
    }
  }

  type Settings = map<string, Value>

  datatype Entry = Entry(body: Value, timestamp: int, id: string)

  datatype Cached = Cached(value: Value, timestamp: int, ttl: int)

  datatype Store = Store(
    session: Option<Value>,
    settings: Option<Settings>,
    history: Option<seq<Entry>>,
    cache: Option<map<string, Cached>>)

  /** A read of the cache: all of it, for an empty key, or the value of one key. */
  datatype Answer = Everything(cache: map<string, Cached>) | One(value: Value)

  datatype Export = Export(session: Value, settings: Option<Settings>, history: Option<seq<Entry>>)

  const EMPTY := Store(None, None, None, None)

  const DEFAULT_SETTINGS: Settings := map[
    "theme" := Text("light"),
    "language" := Text("zh-CN"),
    "autoHighlight" := Bool(true),
    "recordingEnabled" := Bool(false),
    "sidebarPosition" := Text("right"),
    "elementRefStyle" := Text("outline"),
    "highlightColor" := Text("#FFD700"),
    "highlightDuration" := Num(3000.0),
    "autoSaveHistory" := Bool(true),
    "maxHistorySize" := Num(1000.0),
    "enableNotifications" := Bool(true),
    "debugMode" := Bool(false)]

  const HISTORY_READ := 100
  const HISTORY_SIZE := 1000.0

  // ---------------------------------------------------------------------------------------------
  // Reading
  // ---------------------------------------------------------------------------------------------

  function SessionOf(s: Store): Value
  {
    if s.session.Some? && s.session.value.Truthy() then s.session.value else Null
  }

  function SettingsOf(s: Store): Settings
  {
    if s.settings.Some? then s.settings.value else DEFAULT_SETTINGS
  }

  function HistoryOf(s: Store): seq<Entry>
  {
    if s.history.Some? then s.history.value else []
  }

  function Take<T>(xs: seq<T>, n: nat): seq<T>
  {
    if |xs| <= n then xs else xs[..n]
  }

  function CacheOf(s: Store): map<string, Cached>
  {
    if s.cache.Some? then s.cache.value else map[]
  }

  predicate Expired(c: Cached, now: int)
  {
    now - c.timestamp > c.ttl
  }

  // ---------------------------------------------------------------------------------------------
  // Steps
  // ---------------------------------------------------------------------------------------------

  function SavedSettings(s: Store, settings: Settings): Store
  {
    s.(settings := Some(SettingsOf(s) + settings))
  }

  /** The integer part, towards zero. */
  function Trunc(x: real): int
  {
    if x >= 0.0 then x.Floor else -((-x).Floor)
  }

  /** What `splice(maxSize)` leaves; a negative size counts from the end. */
  function Spliced<T>(xs: seq<T>, size: int): seq<T>
  {
    if size >= 0 then Take(xs, size)
    else if |xs| + size <= 0 then [] else xs[..|xs| + size]
  }

  /** The integer a decimal numeral stands for; nothing for any other text. */
  function IntegerOf(text: string): Option<int>
  {
    if text != "" && text[0] == '-' then
      if DigitsOnly(text[1..]) then Some(0 - DecimalValue(text[1..])) else None
    else if DigitsOnly(text) then Some(DecimalValue(text))
    else None
  }

  /** The limit in the settings, coerced to a number where it is none; zero, empty and missing values fall
      back to the built-in one, and a value that stands for no integer sets no limit. */
  function HistoryLimit(settings: Settings): Option<real>
  {
    if "maxHistorySize" !in settings || !settings["maxHistorySize"].Truthy() then Some(HISTORY_SIZE)
    else
      match settings["maxHistorySize"]
      case Num(x) => Some(x)
      case Bool(_) => Some(1.0)
      case Text(text) => if IntegerOf(text).Some? then Some(IntegerOf(text).value as real) else None
      case _ => None
  }

  predicate Exceeds<T>(xs: seq<T>, limit: Option<real>)
  {
    limit.Some? && |xs| as real > limit.value
  }

  function WithEntry(s: Store, e: Entry): Store
  {
    var history := [e] + Take(HistoryOf(s), HISTORY_READ);
    var limit := HistoryLimit(SettingsOf(s));
    s.(history := Some(if Exceeds(history, limit) then Spliced(history, Trunc(limit.value)) else history))
  }

  function SavedCache(s: Store, key: string, value: Value, ttl: int, now: int): Store
  {
    s.(cache := Some(CacheOf(s)[key := Cached(value, now, ttl)]))
  }

  /** Reading one key answers its value, or null; an expired entry is deleted on the way. */
  function Lookup(s: Store, key: string, now: int): (Store, Value)
  {
    var cache := CacheOf(s);
    if key !in cache then (s, Null)
    else if Expired(cache[key], now) then (s.(cache := Some(cache - {key})), Null)
    else (s, cache[key].value)
  }

  /** An empty key clears the whole cache. */
  function ClearedCache(s: Store, key: string): Store
  {
    if key == "" then s.(cache := None) else s.(cache := Some(CacheOf(s) - {key}))
  }

  function Exported(s: Store): Export
  {
    Export(SessionOf(s), Some(SettingsOf(s)), Some(HistoryOf(s)))
  }

  /** Only what is there and not empty-valued is imported; settings are merged over the current ones. */
  function Imported(s: Store, data: Export): Store
  {
    var s1 := if data.session.Truthy() then s.(session := Some(data.session)) else s;
    var s2 := if data.settings.Some? then SavedSettings(s1, data.settings.value) else s1;
    if data.history.Some? then s2.(history := data.history) else s2
  }

  datatype Event =
    | SaveSession(session: Value)
    | ClearSession
    | SaveSettings(settings: Settings)
    | AddToHistory(entry: Entry)
    | ClearHistory
    | SaveCache(key: string, value: Value, ttl: int, now: int)
    | GetCache(key: string, now: int)
    | ClearCache(key: string)
    | ImportData(data: Export)
    | ClearAll

  function Step(s: Store, e: Event): Store
  {
    match e
    case SaveSession(session) => s.(session := Some(session))
    case ClearSession => s.(session := None)
    case SaveSettings(settings) => SavedSettings(s, settings)
    case AddToHistory(entry) => WithEntry(s, entry)
    case ClearHistory => s.(history := None)
    case SaveCache(key, value, ttl, now) => SavedCache(s, key, value, ttl, now)
    case GetCache(key, now) => if key == "" then s else Lookup(s, key, now).0
    case ClearCache(key) => ClearedCache(s, key)
    case ImportData(data) => Imported(s, data)
    case ClearAll => EMPTY
  }

  function Run(events: seq<Event>): Store
  {
    if events == [] then EMPTY
    else Step(Run(events[..|events| - 1]), events[|events| - 1])
  }

  // ---------------------------------------------------------------------------------------------
  // The manager
  // ---------------------------------------------------------------------------------------------

  class StorageManager {
    var area: Store

    constructor ()
      ensures area == EMPTY
    {
      area := EMPTY;
    }

    method SaveSettings(settings: Settings)
      modifies this
      ensures area == Step(old(area), Event.SaveSettings(settings))
    {
      var current := SettingsOf(area);
      var merged := current;
      var todo := settings.Keys;
      while todo != {}
        invariant todo <= settings.Keys
        invariant merged.Keys == current.Keys + (settings.Keys - todo)
        invariant forall k :: k in merged ==>
          merged[k] == if k in settings && k !in todo then settings[k] else current[k]
      {
        var k :| k in todo;
        merged := merged[k := settings[k]];
        todo := todo - {k};
      }
      assert merged == current + settings;
      area := area.(settings := Some(merged));
    }

    method AddToHistory(entry: Entry)
      modifies this
      ensures area == Step(old(area), Event.AddToHistory(entry))
    {
      var history := Take(HistoryOf(area), HISTORY_READ);
      history := [entry] + history;
      var limit := HistoryLimit(SettingsOf(area));
      if Exceeds(history, limit) {
        history := Spliced(history, Trunc(limit.value));
      }
      area := area.(history := Some(history));
    }

    method SaveCache(key: string, value: Value, ttl: int, now: int)
      modifies this
      ensures area == Step(old(area), Event.SaveCache(key, value, ttl, now))
    {
      var cache := CacheOf(area);
      cache := cache[key := Cached(value, now, ttl)];
      area := area.(cache := Some(cache));
    }

    method GetCache(key: string, now: int) returns (answer: Answer)
      modifies this
      ensures area == Step(old(area), Event.GetCache(key, now))
      ensures answer == if key == "" then Everything(CacheOf(old(area))) else One(Lookup(old(area), key, now).1)
    {
      var cache := CacheOf(area);
      if key == "" { return Everything(cache); }
      if key !in cache { return One(Null); }
      if now - cache[key].timestamp > cache[key].ttl {
        area := area.(cache := Some(cache - {key}));
        return One(Null);
      }
      return One(cache[key].value);
    }

    method ClearCache(key: string)
      modifies this
      ensures area == Step(old(area), Event.ClearCache(key))
    {
      if key != "" {
        area := area.(cache := Some(CacheOf(area) - {key}));
      } else {
        area := area.(cache := None);
      }
    }

    method ExportData() returns (data: Export)
      ensures data == Exported(area)
    {
      data := Export(SessionOf(area), Some(SettingsOf(area)), Some(HistoryOf(area)));
    }

    method ImportData(data: Export)
      modifies this
      ensures area == Step(old(area), Event.ImportData(data))
    {
      if data.session.Truthy() { area := area.(session := Some(data.session)); }
      if data.settings.Some? { SaveSettings(data.settings.value); }
      if data.history.Some? { area := area.(history := data.history); }
    }

    method ClearAll()
      modifies this
      ensures area == EMPTY
    {
      area := EMPTY;
    }
  }

  // ---------------------------------------------------------------------------------------------
  // Export and import
  // ---------------------------------------------------------------------------------------------

  ghost predicate HasDefaultKeys(s: Store)
  {
    DEFAULT_SETTINGS.Keys <= SettingsOf(s).Keys
  }

  /** Stored settings always contain every default key. */
  lemma {:induction false} RunHasDefaultKeys(events: seq<Event>)
    ensures HasDefaultKeys(Run(events))
  {
    if events == [] {
    } else {
      RunHasDefaultKeys(events[..|events| - 1]);
    }
  }

  ghost predicate SameObservations(s: Store, t: Store)
  {
    SessionOf(s) == SessionOf(t) && SettingsOf(s) == SettingsOf(t) && HistoryOf(s) == HistoryOf(t)
  }

  /** Exporting, clearing everything and importing gives back session, settings and full history
      exactly when the settings contain every default key; the cache is gone. */
  lemma RoundTripExactly(s: Store)
    ensures SameObservations(Imported(EMPTY, Exported(s)), s) <==> HasDefaultKeys(s)
    ensures Imported(EMPTY, Exported(s)).cache == None
  {
  }

  /** So in every reachable state the round trip is lossless. */
  lemma ExportImportRoundTrip(events: seq<Event>)
    ensures SameObservations(Imported(EMPTY, Exported(Run(events))), Run(events))
  {
    RunHasDefaultKeys(events);
    RoundTripExactly(Run(events));
  }

  /** How many of `n` entries a limit leaves: its integer part; one of minus one or less is taken off `n`. */
  function Left(n: nat, limit: Option<real>): nat
  {
    if limit.None? || n as real <= limit.value then n
    else if limit.value >= 0.0 then limit.value.Floor
    else if limit.value > -1.0 || n <= (-limit.value).Floor then 0
    else n - (-limit.value).Floor
  }

  lemma SplicedLength<T>(xs: seq<T>, limit: Option<real>)
    ensures |if Exceeds(xs, limit) then Spliced(xs, Trunc(limit.value)) else xs| == Left(|xs|, limit)
  {
    if Exceeds(xs, limit) && limit.value >= 0.0 {
      assert limit.value.Floor as real <= limit.value;
    }
  }

  /** Adding an entry puts it first (unless the limit leaves no room), keeps no entry from beyond the
      first hundred, and keeps the rest in order: at most 101 entries, whatever the settings allow, and
      exactly as many as the limit leaves. */
  lemma HistoryAfterAdding(s: Store, e: Entry)
    ensures var before, after := HistoryOf(s), HistoryOf(WithEntry(s, e));
            && |after| == Left(1 + |Take(before, HISTORY_READ)|, HistoryLimit(SettingsOf(s))) <= HISTORY_READ + 1
            && (after != [] ==> after[0] == e && after[1..] <= before)
            && (SettingsOf(s) == DEFAULT_SETTINGS ==> after == [e] + Take(before, HISTORY_READ))
  {
    var full := [e] + Take(HistoryOf(s), HISTORY_READ);
    var after := HistoryOf(WithEntry(s, e));
    SplicedLength(full, HistoryLimit(SettingsOf(s)));
    assert after <= full;
    assert full[1..] == Take(HistoryOf(s), HISTORY_READ) <= HistoryOf(s);
    if after != [] { assert after[1..] == full[1..][..|after| - 1]; }
  }

  // ---------------------------------------------------------------------------------------------
  // The cache against a map that never evicts
  // ---------------------------------------------------------------------------------------------

  /** The time a cache event happens, for those that read the clock. */
  function TimeOf(e: Event): Option<int>
  {
    if e.SaveCache? || (e.GetCache? && e.key != "") then Some(e.now) else None
  }

  /** Cache events do not go back in time, and none happens after `now`. */
  predicate TimedBy(events: seq<Event>, now: int)
  {
    events == [] ||
    (var init, e := events[..|events| - 1], events[|events| - 1];
     if TimeOf(e).Some? then TimeOf(e).value <= now && TimedBy(init, TimeOf(e).value)
     else TimedBy(init, now))
  }

  /** The latest value saved under a key and not cleared since: expiry plays no part in it. */
  function Latest(events: seq<Event>, key: string): Option<Cached>
  {
    if events == [] then None
    else
      var init, e := events[..|events| - 1], events[|events| - 1];
      match e
      case SaveCache(k, value, ttl, now) => if k == key then Some(Cached(value, now, ttl)) else Latest(init, key)
      case ClearCache(k) => if k == key || k == "" then None else Latest(init, key)
      case ClearAll => None
      case _ => Latest(init, key)
  }

  /** Some lookup of the key since the latest save found it expired. */
  predicate FoundExpired(events: seq<Event>, key: string)
  {
    events != [] &&
    (var init, e := events[..|events| - 1], events[|events| - 1];
     match e
     case SaveCache(k, _, _, _) => k != key && FoundExpired(init, key)
     case GetCache(k, now) =>
       FoundExpired(init, key) ||
       (k == key && k != "" && Latest(init, key).Some? && Expired(Latest(init, key).value, now))
     case _ => FoundExpired(init, key))
  }

  /** Whatever the clock does, an entry is in the cache exactly when it was saved, has not been cleared
      since, and no lookup since found it expired; and it is then the latest one saved. */
  lemma {:induction false} CacheExactly(events: seq<Event>, key: string)
    ensures var cache := CacheOf(Run(events));
            && (key in cache <==> Latest(events, key).Some? && !FoundExpired(events, key))
            && (key in cache ==> Latest(events, key) == Some(cache[key]))
  {
    if events == [] {
    } else {
      CacheExactly(events[..|events| - 1], key);
    }
  }

  /** What a lookup answers when nothing is ever evicted: the latest saved value while it is not older
      than its time to live. */
  function Unevicted(events: seq<Event>, key: string, now: int): Value
  {
    var latest := Latest(events, key);
    if latest.Some? && now - latest.value.timestamp <= latest.value.ttl then latest.value.value else Null
  }

  /** Whatever the clock does, a lookup answers as if nothing were ever evicted, exactly unless an earlier
      lookup found expired a value that is not expired now; it then answers null. */
  lemma LookupExactly(events: seq<Event>, key: string, now: int)
    ensures var answer := Lookup(Run(events), key, now).1;
            && (answer == Unevicted(events, key, now) <==>
                  !(FoundExpired(events, key) && Unevicted(events, key, now) != Null))
            && (answer != Unevicted(events, key, now) ==> answer == Null)
  {
    CacheExactly(events, key);
  }

  /** When time does not go back, what was found expired is expired. */
  lemma {:induction false} ExpiredStaysExpired(events: seq<Event>, key: string, now: int)
    requires TimedBy(events, now) && FoundExpired(events, key)
    ensures Latest(events, key).Some? ==> Expired(Latest(events, key).value, now)
  {
    var init, e := events[..|events| - 1], events[|events| - 1];
    var before := if TimeOf(e).Some? then TimeOf(e).value else now;
    if FoundExpired(init, key) { ExpiredStaysExpired(init, key, before); }
  }

  /** What is in the cache is the latest saved value, and what is missing has expired. */
  ghost predicate Agrees(s: Store, key: string, latest: Option<Cached>, now: int)
  {
    if key in CacheOf(s) then latest == Some(CacheOf(s)[key])
    else latest.None? || Expired(latest.value, now)
  }

  lemma CacheAgrees(events: seq<Event>, key: string, now: int)
    requires TimedBy(events, now)
    ensures Agrees(Run(events), key, Latest(events, key), now)
  {
    CacheExactly(events, key);
    if FoundExpired(events, key) { ExpiredStaysExpired(events, key, now); }
  }

  /** In any run in which time does not go back, a lookup answers the latest saved value exactly while
      it is not older than its time to live, as if nothing were ever evicted. */
  lemma LookupAnswersLatest(events: seq<Event>, key: string, now: int)
    requires TimedBy(events, now)
    ensures Lookup(Run(events), key, now).1 == Unevicted(events, key, now)
  {
    CacheAgrees(events, key, now);
  }

  // ---------------------------------------------------------------------------------------------
  // What is read is what was written
  // ---------------------------------------------------------------------------------------------

  /** The settings before any are saved. */
  lemma NewStoreSettings()
    ensures SettingsOf(EMPTY) == map[
              "theme" := Text("light"), "language" := Text("zh-CN"), "autoHighlight" := Bool(true),
              "recordingEnabled" := Bool(false), "sidebarPosition" := Text("right"),
              "elementRefStyle" := Text("outline"), "highlightColor" := Text("#FFD700"),
              "highlightDuration" := Num(3000.0), "autoSaveHistory" := Bool(true), "maxHistorySize" := Num(1000.0),
              "enableNotifications" := Bool(true), "debugMode" := Bool(false)]
    ensures SessionOf(EMPTY) == Null && HistoryOf(EMPTY) == []
  {
  }

  /** The settings a call brings, if it does. */
  function Brought(e: Event): Option<Settings>
  {
    match e
    case SaveSettings(settings) => Some(settings)
    case ImportData(data) => data.settings
    case _ => None
  }

  /** The value last saved or imported for a setting since everything was cleared, or its default. */
  function LastSetting(events: seq<Event>, key: string): Option<Value>
  {
    if events == [] || events[|events| - 1].ClearAll? then
      if key in SettingsOf(EMPTY) then Some(SettingsOf(EMPTY)[key]) else None
    else
      var init, e := events[..|events| - 1], events[|events| - 1];
      if Brought(e).Some? && key in Brought(e).value then Some(Brought(e).value[key]) else LastSetting(init, key)
  }

  /** In every run each setting reads as the value last given to it, whatever was saved around it. */
  lemma {:induction false} SettingExactly(events: seq<Event>, key: string)
    ensures var settings := SettingsOf(Run(events));
            LastSetting(events, key) == if key in settings then Some(settings[key]) else None
  {
    if events == [] {
    } else {
      SettingExactly(events[..|events| - 1], key);
    }
  }

  /** The session last saved or imported and not cleared since; an empty value reads as null. */
  function LastSession(events: seq<Event>): Value
  {
    if events == [] then Null
    else
      var init, e := events[..|events| - 1], events[|events| - 1];
      match e
      case SaveSession(session) => if Empty(session) then Null else session
      case ImportData(data) => if Empty(data.session) then LastSession(init) else data.session
      case ClearSession => Null
      case ClearAll => Null
      case _ => LastSession(init)
  }

  predicate Empty(v: Value)
  {
    v in {Null, Bool(false), Num(0.0), Text("")}
  }

  lemma {:induction false} SessionExactly(events: seq<Event>)
    ensures SessionOf(Run(events)) == LastSession(events)
  {
    if events == [] {
    } else {
      SessionExactly(events[..|events| - 1]);
    }
  }

  /** The history by what was added: each entry goes before the latest hundred of those before it, and
      the limit set at the time says how many are left. */
  function Recorded(events: seq<Event>): seq<Entry>
  {
    if events == [] then []
    else
      var init, e := events[..|events| - 1], events[|events| - 1];
      match e
      case AddToHistory(entry) =>
        var before := Recorded(init);
        var full := [entry] + before[..if |before| < 100 then |before| else 100];
        var left := Left(|full|, HistoryLimit(SettingsOf(Run(init))));
        if left < |full| then full[..left] else full
      case ImportData(data) => if data.history.Some? then data.history.value else Recorded(init)
      case ClearHistory => []
      case ClearAll => []
      case _ => Recorded(init)
  }

  lemma AddedEntry(s: Store, entry: Entry)
    ensures var before := HistoryOf(s);
            var full := [entry] + before[..if |before| < 100 then |before| else 100];
            var left := Left(|full|, HistoryLimit(SettingsOf(s)));
            HistoryOf(WithEntry(s, entry)) == if left < |full| then full[..left] else full
  {
    SplicedLength([entry] + Take(HistoryOf(s), HISTORY_READ), HistoryLimit(SettingsOf(s)));
  }

  lemma {:induction false} HistoryExactly(events: seq<Event>)
    ensures HistoryOf(Run(events)) == Recorded(events)
  {
    if events == [] {
    } else {
      var init, e := events[..|events| - 1], events[|events| - 1];
      HistoryExactly(init);
      if e.AddToHistory? { AddedEntry(Run(init), e.entry); }
    }
  }

  /** The history limit by the kind of setting. */
  lemma LimitByKind(settings: Settings)
    ensures "maxHistorySize" !in settings || Empty(settings["maxHistorySize"]) ==>
              HistoryLimit(settings) == Some(1000.0)
    ensures "maxHistorySize" in settings && !Empty(settings["maxHistorySize"]) ==>
              match settings["maxHistorySize"]
              case Num(x) => HistoryLimit(settings) == Some(x)
              case Bool(b) => HistoryLimit(settings) == Some(1.0)
              case Text(text) =>
                && (DigitsOnly(text) ==> HistoryLimit(settings) == Some(DecimalValue(text) as real))
                && (text[0] == '-' && DigitsOnly(text[1..]) ==>
                      HistoryLimit(settings) == Some(0.0 - DecimalValue(text[1..]) as real))
                && (!DigitsOnly(text) && !(text[0] == '-' && DigitsOnly(text[1..])) ==> HistoryLimit(settings) == None)
              case _ => HistoryLimit(settings) == None
  {
  }
}
