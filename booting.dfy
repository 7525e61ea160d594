/**
 * The configuration bookkeeping of the console's boot scripts: the early
 * cache configuration that is switched off while the object management
 * boots and merged back afterwards, the filter that drops two core command
 * controllers, and the small writes into the TYPO3 configuration array.
 *
 * The static class and the global configuration array it writes become one
 * object whose fields are the configuration paths the scripts touch.
 */
module Booting {
  import opened Optional
  import opened PhpArrays

  const FakeDatabaseBackend := "Helhum\\Typo3Console\\Core\\Cache\\FakeDatabaseBackend"
  const NullBackend := "TYPO3\\CMS\\Core\\Cache\\Backend\\NullBackend"
  const Typo3DatabaseBackend := "TYPO3\\CMS\\Core\\Cache\\Backend\\Typo3DatabaseBackend"
  const ExtensionCommandController := "TYPO3\\CMS\\Extensionmanager\\Command\\ExtensionCommandController"
  const HelpCommandController := "TYPO3\\CMS\\Extbase\\Command\\HelpCommandController"
  const ArrayConverter := "Helhum\\Typo3Console\\Property\\TypeConverter\\ArrayConverter"
  const ConsoleHelpCommandController := "Helhum\\Typo3Console\\Command\\HelpCommandController"
  const ExtbaseCliCommand := "TYPO3\\CMS\\Extbase\\Mvc\\Cli\\Command"
  const ConsoleCliCommand := "Helhum\\Typo3Console\\Mvc\\Cli\\Command"

  /** The caches the object management would otherwise fill with an unfinished configuration. */
  const ObjectManagementCacheIds: seq<string> := [
    "extbase_object",
    "extbase_reflection",
    "extbase_typo3dbbackend_tablecolumns",
    "extbase_typo3dbbackend_queries",
    "extbase_datamapfactory_datamap"
  ]
  const CoreCacheId := "cache_core"
  const BackendKey := StrKey("backend")
  const OptionsKey := StrKey("options")
  const ClassNameKey := StrKey("className")

  predicate DistinctIds(ids: seq<string>) {
    forall i, j :: 0 <= i < j < |ids| ==> ids[i] != ids[j]
  }

  /**
   * The array that writing a key into a value starts from: an array stays
   * itself, and unset, null and false become a fresh empty array. Writing a
   * key into any other scalar is an error in PHP.
   */
  function WritableArray(v: Option<PhpValue>): (r: Option<seq<Entry>>)
    ensures v.Some? && v.value.Arr? ==> r == Some(v.value.entries)
    ensures r.Some? && !(v.Some? && v.value.Arr?) ==> r == Some([])
    ensures r.None? <==> v.Some? && !v.value.Arr? && !v.value.Null? && v.value != Bool(false)
  {
    match v
    case None => Some([])
    case Some(x) =>
      match x
      case Arr(es) => Some(es)
      case Null => Some([])
      case Bool(b) => if b then None else Some([])
      case _ => None
  }

  /** The backend a disabled cache gets, given its current backend. */
  function DisabledBackend(current: Option<PhpValue>): (r: string)
    ensures r == FakeDatabaseBackend <==> Empty(current) || current == Some(Str(Typo3DatabaseBackend))
    ensures r == FakeDatabaseBackend || r == NullBackend
  {
    if Empty(current) || current == Some(Str(Typo3DatabaseBackend)) then FakeDatabaseBackend else NullBackend
  }

  /** A cache configuration with its backend switched off and its options cleared; every other key kept. */
  function DisabledEntry(entry: seq<Entry>): (r: seq<Entry>)
    ensures Lookup(r, BackendKey) == Some(Str(DisabledBackend(Lookup(entry, BackendKey))))
    ensures Lookup(r, OptionsKey) == Some(Arr([]))
    ensures forall k :: k != BackendKey && k != OptionsKey ==> Lookup(r, k) == Lookup(entry, k)
    ensures WellFormed(Arr(entry)) ==> WellFormed(Arr(r))
  {
    var withBackend := Put(entry, BackendKey, Str(DisabledBackend(Lookup(entry, BackendKey))));
    Put(withBackend, OptionsKey, Arr([]))
  }

  /** The global cache configurations together with the saved early copies. */
  datatype CacheState = CacheState(configurations: seq<Entry>, early: seq<Entry>)

  datatype Outcome = Done | IllegalOffset(cacheId: string)

  datatype DisableResult = DisableResult(state: CacheState, outcome: Outcome)

  /** One turn of the loop in disableCachesForObjectManagement. */
  function DisableCache(s: CacheState, id: string): DisableResult
  {
    var key := StrKey(id);
    var current := Lookup(s.configurations, key);
    if !IsSet(current) then DisableResult(s, Done)
    else
      var early := Put(s.early, key, current.value);
      match WritableArray(current)
      case None => DisableResult(CacheState(s.configurations, early), IllegalOffset(id))
      case Some(entry) =>
        DisableResult(CacheState(Put(s.configurations, key, Arr(DisabledEntry(entry))), early), Done)
  }

  /**
   * One id: an unset cache is left alone; a set one is saved as it was and,
   * unless it is a scalar PHP cannot write a key into, replaced by its
   * disabled form. Nothing under any other id changes.
   */
  lemma DisableCacheEffect(s: CacheState, id: string)
    ensures var r := DisableCache(s, id);
      var key := StrKey(id);
      var current := Lookup(s.configurations, key);
      && (!IsSet(current) ==> r == DisableResult(s, Done))
      && (IsSet(current) ==>
            && Lookup(r.state.early, key) == current
            && (forall k :: k != key ==> Lookup(r.state.early, k) == Lookup(s.early, k))
            && (forall k :: k != key ==> Lookup(r.state.configurations, k) == Lookup(s.configurations, k))
            && (WritableArray(current).None? ==> r.outcome == IllegalOffset(id) && r.state.configurations == s.configurations)
            && (WritableArray(current).Some? ==>
                  r.outcome == Done &&
                  Lookup(r.state.configurations, key) == Some(Arr(DisabledEntry(WritableArray(current).value)))))
  {
  }

  /** The loop of disableCachesForObjectManagement over `ids`; it stops at the first failing id. */
  function DisableCaches(s: CacheState, ids: seq<string>): DisableResult
    decreases |ids|
  {
    if |ids| == 0 then DisableResult(s, Done)
    else
      var r := DisableCache(s, ids[0]);
      if r.outcome.IllegalOffset? then r else DisableCaches(r.state, ids[1..])
  }

  /** The save of disableCoreCaches: the current cache_core entry, or null when it is unset. */
  function SaveCoreCache(s: CacheState): (r: CacheState)
    ensures r.configurations == s.configurations
    ensures Lookup(r.early, StrKey(CoreCacheId)) ==
            Some(if HasKey(s.configurations, StrKey(CoreCacheId)) then Lookup(s.configurations, StrKey(CoreCacheId)).value else Null)
    ensures forall k :: k != StrKey(CoreCacheId) ==> Lookup(r.early, k) == Lookup(s.early, k)
  {
    var current := Lookup(s.configurations, StrKey(CoreCacheId));
    CacheState(s.configurations, Put(s.early, StrKey(CoreCacheId), if current.Some? then current.value else Null))
  }

  /** Entries removed by filterOverriddenCoreCommandControllers: exactly the two class names, compared strictly. */
  predicate Overridden(v: PhpValue) {
    v == Str(ExtensionCommandController) || v == Str(HelpCommandController)
  }

  /** `array_filter` with the overridden-controller test: keeps every other entry with its key. */
  function FilterOverridden(es: seq<Entry>): (r: seq<Entry>)
    ensures forall e :: e in r <==> e in es && !Overridden(e.value)
    ensures |r| <= |es|
  {
    if es == [] then []
    else (if Overridden(es[0].value) then [] else [es[0]]) + FilterOverridden(es[1..])
  }

  /** Lines 48-50 and 265-266: an empty or unset setting becomes an empty array; anything else is kept. */
  function EnsureArray(v: Option<PhpValue>): (r: Option<PhpValue>)
    ensures r.Some?
    ensures Empty(v) ==> r.value == Arr([])
    ensures !Empty(v) ==> r == v
  {
    if Empty(v) then Some(Arr([])) else v
  }

  /** Lines 265-268: `typeConverters[] = ArrayConverter`, after an empty value was made an array. */
  function AddArrayConverter(v: Option<PhpValue>): (r: PhpValue)
    requires Empty(v) || v.value.Arr?
    ensures r.Arr? && |r.entries| > 0
    ensures r.entries[|r.entries| - 1].value == Str(ArrayConverter)
    ensures r.entries[..|r.entries| - 1] == if Empty(v) then [] else v.value.entries
  {
    var converters := EnsureArray(v).value.entries;
    Arr(Append(converters, Str(ArrayConverter)))
  }

  /** Line 280: `Objects[original]['className'] = override`, creating the entry when it is missing. */
  function OverrideObject(objects: seq<Entry>, original: string, override: string): (r: seq<Entry>)
    requires WritableArray(Lookup(objects, StrKey(original))).Some?
    ensures Lookup(r, StrKey(original)).Some? && Lookup(r, StrKey(original)).value.Arr?
    ensures var before := WritableArray(Lookup(objects, StrKey(original))).value;
            var after := Lookup(r, StrKey(original)).value.entries;
            && Lookup(after, ClassNameKey) == Some(Str(override))
            && forall k :: k != ClassNameKey ==> Lookup(after, k) == Lookup(before, k)
    ensures forall k :: k != StrKey(original) ==> Lookup(r, k) == Lookup(objects, k)
  {
    var entry := WritableArray(Lookup(objects, StrKey(original))).value;
    Put(objects, StrKey(original), Arr(Put(entry, ClassNameKey, Str(override))))
  }

  /**
   * The static state of the boot scripts and the parts of the global TYPO3
   * configuration they write.
   */
  class Scripts {
    /** `$GLOBALS['TYPO3_CONF_VARS']['SYS']['caching']['cacheConfigurations']` */
    var cacheConfigurations: seq<Entry>
    /** The static `$earlyCachesConfiguration`. */
    var earlyCachesConfiguration: seq<Entry>
    /** `$GLOBALS['TYPO3_CONF_VARS']['SC_OPTIONS']['extbase']['commandControllers']`, None when unset. */
    var commandControllers: Option<PhpValue>
    /** `$GLOBALS['TYPO3_CONF_VARS']['EXTCONF']['extbase']['typeConverters']`, None when unset. */
    var typeConverters: Option<PhpValue>
    /** `$GLOBALS['TYPO3_CONF_VARS']['SYS']['Objects']` */
    var objects: seq<Entry>
    /** The configurations last handed to the cache manager. */
    var managerConfigurations: seq<Entry>
    /** Identifiers of the caches the cache manager holds. */
    var managerCaches: set<string>
    /** Whether the host's own disableCoreCache was called. */
    var coreCacheDisabled: bool

    ghost predicate Valid()
      reads this
    {
      WellFormed(Arr(cacheConfigurations)) && WellFormed(Arr(earlyCachesConfiguration))
    }

    function Caches(): CacheState
      reads this
    {
      CacheState(cacheConfigurations, earlyCachesConfiguration)
    }

    constructor (cacheConfigurations: seq<Entry>, commandControllers: Option<PhpValue>,
                 typeConverters: Option<PhpValue>, objects: seq<Entry>, managerCaches: set<string>)
      requires WellFormed(Arr(cacheConfigurations))
      ensures Valid()
      ensures this.cacheConfigurations == cacheConfigurations && earlyCachesConfiguration == []
      ensures this.commandControllers == commandControllers && this.typeConverters == typeConverters
      ensures this.objects == objects && this.managerCaches == managerCaches
      ensures managerConfigurations == [] && !coreCacheDisabled
    {
      this.cacheConfigurations := cacheConfigurations;
      this.earlyCachesConfiguration := [];
      this.commandControllers := commandControllers;
      this.typeConverters := typeConverters;
      this.objects := objects;
      this.managerConfigurations := [];
      this.managerCaches := managerCaches;
      this.coreCacheDisabled := false;
    }

    /** The configuration writes of initializeConfigurationManagement (lines 48-50 and 71). */
    method InitializeConfigurationManagement() returns (outcome: Outcome)
      requires Valid()
      modifies this`commandControllers, this`cacheConfigurations, this`earlyCachesConfiguration
      ensures Valid()
      ensures commandControllers == EnsureArray(old(commandControllers))
      ensures DisableResult(Caches(), outcome) == DisableCaches(old(Caches()), ObjectManagementCacheIds)
    {
      if Empty(commandControllers) {
        commandControllers := Some(Arr([]));
      }
      outcome := DisableCachesForObjectManagement();
    }

    /**
     * Saves each of the five object-management cache configurations that is
     * set and switches it to a fake or null backend without options.
     */
    method DisableCachesForObjectManagement() returns (outcome: Outcome)
      requires Valid()
      modifies this`cacheConfigurations, this`earlyCachesConfiguration
      ensures Valid()
      ensures DisableResult(Caches(), outcome) == DisableCaches(old(Caches()), ObjectManagementCacheIds)
    {
      var ids := ObjectManagementCacheIds;
      for i := 0 to |ids|
        invariant Valid()
        invariant DisableCaches(Caches(), ids[i..]) == DisableCaches(old(Caches()), ids)
      {
        assert ids[i..][1..] == ids[i + 1..];
        var key := StrKey(ids[i]);
        var current := Lookup(cacheConfigurations, key);
        if !IsSet(current) {
          continue;
        }
        LookupWellFormed(cacheConfigurations, key);
        ghost var before := Caches();
        earlyCachesConfiguration := Put(earlyCachesConfiguration, key, current.value);
        var entry := WritableArray(current);
        if entry.None? {
          return IllegalOffset(ids[i]);
        }
        var backend := Lookup(entry.value, BackendKey);
        var updated := if Empty(backend) || backend == Some(Str(Typo3DatabaseBackend))
          then Put(entry.value, BackendKey, Str(FakeDatabaseBackend))
          else Put(entry.value, BackendKey, Str(NullBackend));
        updated := Put(updated, OptionsKey, Arr([]));
        assert updated == DisabledEntry(entry.value);
        cacheConfigurations := Put(cacheConfigurations, key, Arr(updated));
        assert DisableCache(before, ids[i]) == DisableResult(Caches(), Done);
      }
      return Done;
    }

    /** Saves cache_core and lets the host switch the core cache off. */
    method DisableCoreCaches()
      requires Valid()
      modifies this`earlyCachesConfiguration, this`coreCacheDisabled
      ensures Valid()
      ensures Caches() == SaveCoreCache(old(Caches())) && coreCacheDisabled
    {
      var current := Lookup(cacheConfigurations, StrKey(CoreCacheId));
      if current.Some? {
        LookupWellFormed(cacheConfigurations, StrKey(CoreCacheId));
      }
      earlyCachesConfiguration := Put(earlyCachesConfiguration, StrKey(CoreCacheId), if current.Some? then current.value else Null);
      coreCacheDisabled := true;
    }

    /**
     * Merges the saved configurations back with `array_replace_recursive`,
     * hands the result to the cache manager and empties the manager's caches.
     */
    method ReEnableOriginalCoreCaches()
      requires Valid()
      modifies this`cacheConfigurations, this`managerConfigurations, this`managerCaches
      ensures Valid()
      ensures cacheConfigurations == ReplaceRecursive(old(cacheConfigurations), earlyCachesConfiguration)
      ensures managerConfigurations == cacheConfigurations && managerCaches == {}
    {
      ReplaceRecursiveWellFormed(cacheConfigurations, earlyCachesConfiguration);
      cacheConfigurations := ReplaceRecursive(cacheConfigurations, earlyCachesConfiguration);
      managerConfigurations := cacheConfigurations;
      managerCaches := {};
    }

    /** Drops the core extension and help command controllers from the registered controllers. */
    method FilterOverriddenCoreCommandControllers()
      requires commandControllers.Some? && commandControllers.value.Arr?
      modifies this`commandControllers
      ensures commandControllers == Some(Arr(FilterOverridden(old(commandControllers).value.entries)))
    {
      commandControllers := Some(Arr(FilterOverridden(commandControllers.value.entries)));
    }

    /** The configuration writes of provideCleanClassImplementations (lines 263-268). */
    method ProvideCleanClassImplementations()
      requires WritableArray(Lookup(objects, StrKey(HelpCommandController))).Some?
      requires WritableArray(Lookup(objects, StrKey(ExtbaseCliCommand))).Some?
      requires Empty(typeConverters) || typeConverters.value.Arr?
      modifies this`objects, this`typeConverters
      ensures objects == OverrideObject(OverrideObject(old(objects), HelpCommandController, ConsoleHelpCommandController),
                                        ExtbaseCliCommand, ConsoleCliCommand)
      ensures typeConverters == Some(AddArrayConverter(old(typeConverters)))
    {
      OverrideImplementation(HelpCommandController, ConsoleHelpCommandController);
      OverrideImplementation(ExtbaseCliCommand, ConsoleCliCommand);
      typeConverters := EnsureArray(typeConverters);
      typeConverters := Some(Arr(Append(typeConverters.value.entries, Str(ArrayConverter))));
    }

    /** The configuration write of overrideImplementation. */
    method OverrideImplementation(original: string, override: string)
      requires WritableArray(Lookup(objects, StrKey(original))).Some?
      modifies this`objects
      ensures objects == OverrideObject(old(objects), original, override)
    {
      objects := OverrideObject(objects, original, override);
    }
  }
}
