/** The lazily built plugin registry: `PluginCollection.instance()`,
    `deleteInstance()` and the collection's constructor.

    The static field `ourInstance` is a two-state value, `Absent` (null) or
    `Built(collection)`; each operation takes the current state and returns
    the next one. */
module Registry {
  import opened Wrappers
  import Selection

  /** The concrete plugins registered by `instance()`. */
  datatype PluginKind = FB2 | Html | OEB

  /** The three configuration options a collection carries. Their values are
      plain values here; where they are persisted is not modelled. */
  datatype Options = Options(languageAutoDetect: bool, defaultLanguage: string, defaultEncoding: string)

  datatype Collection = Collection(plugins: seq<PluginKind>, options: Options)

  /** The static `ourInstance` field. */
  datatype Singleton = Absent | Built(collection: Collection)

  /** Registration order: FB2 first, then Html, then OEB. */
  const BuiltInPlugins: seq<PluginKind> := [FB2, Html, OEB]

  /** Option defaults: AutoDetect = true, DefaultLanguage = "en",
      DefaultEncoding = "windows-1252". */
  const DefaultOptions: Options := Options(true, "en", "windows-1252")

  /** A collection as `instance()` leaves it right after building it. */
  function FreshCollection(): (c: Collection)
    ensures c.plugins == [FB2, Html, OEB]
    ensures c.options == Options(true, "en", "windows-1252")
  {
    Collection(BuiltInPlugins, DefaultOptions)
  }

  /** `instance()`: builds the collection only when none exists, and returns
      the singleton's next state together with the collection handed out. */
  function Instance(s: Singleton): (r: (Singleton, Collection))
    ensures r.0 == Built(r.1)
    ensures s.Built? ==> r.0 == s
    ensures s.Absent? ==> r.1.plugins == [FB2, Html, OEB]
    ensures s.Absent? ==> r.1.options.languageAutoDetect
    ensures s.Absent? ==> r.1.options.defaultLanguage == "en"
    ensures s.Absent? ==> r.1.options.defaultEncoding == "windows-1252"
  {
    match s
    case Absent => (Built(FreshCollection()), FreshCollection())
    case Built(c) => (s, c)
  }

  /** `deleteInstance()`: drops the collection, whatever the state. */
  function DeleteInstance(s: Singleton): (r: Singleton)
    ensures r.Absent?
    ensures Instance(r).1 == FreshCollection()
  {
    Absent
  }

  /** A second `instance()` call returns the same collection and leaves the
      state as the first call left it. */
  lemma InstanceIdempotent(s: Singleton)
    ensures Instance(Instance(s).0) == Instance(s)
  {
  }

  /** After `deleteInstance()` the next `instance()` builds a fresh collection,
      discarding whatever the deleted one held. */
  lemma DeleteThenInstanceRebuilds(s: Singleton)
    ensures Instance(DeleteInstance(s)).0 == Built(FreshCollection())
  {
  }

  /** The two operations a program can perform on the singleton. */
  datatype Call = InstanceCall | DeleteInstanceCall

  function Step(s: Singleton, c: Call): Singleton
  {
    match c
    case InstanceCall => Instance(s).0
    case DeleteInstanceCall => DeleteInstance(s)
  }

  /** The singleton after a sequence of calls, first call first. */
  function Run(s: Singleton, calls: seq<Call>): Singleton
    decreases |calls|
  {
    if |calls| == 0 then s else Run(Step(s, calls[0]), calls[1..])
  }

  /** A built singleton holds exactly what the constructor and `instance()`
      put there. */
  ghost predicate Consistent(s: Singleton)
  {
    s.Built? ==> s.collection == FreshCollection()
  }

  /** No sequence of `instance()` and `deleteInstance()` calls can make the
      singleton hold anything but a freshly built collection. */
  lemma {:induction false} RunKeepsConsistent(s: Singleton, calls: seq<Call>)
    requires Consistent(s)
    ensures Consistent(Run(s, calls))
    decreases |calls|
  {
    if |calls| > 0 {
      assert Consistent(Step(s, calls[0]));
      RunKeepsConsistent(Step(s, calls[0]), calls[1..]);
    }
  }

  /** Starting from the program's initial state (no instance), every
      collection `instance()` hands out lists FB2, Html, OEB in that order and
      carries the default options. */
  lemma EveryInstanceIsFresh(calls: seq<Call>)
    ensures Instance(Run(Absent, calls)).1.plugins == [FB2, Html, OEB]
    ensures Instance(Run(Absent, calls)).1.options == Options(true, "en", "windows-1252")
  {
    RunKeepsConsistent(Absent, calls);
  }

  /** `getPlugin` on the built-in list follows the registration order: FB2
      wins over Html, which wins over OEB. */
  lemma BuiltInPriority<F>(file: F, strong: bool,
                           providesMetaInfo: PluginKind -> bool, acceptsFile: (PluginKind, F) -> bool)
    ensures var plugins := FreshCollection().plugins;
            Selection.FirstEligible(plugins, file, strong, providesMetaInfo, acceptsFile) ==
              if Selection.Eligible(FB2, file, strong, providesMetaInfo, acceptsFile) then Some(0)
              else if Selection.Eligible(Html, file, strong, providesMetaInfo, acceptsFile) then Some(1)
              else if Selection.Eligible(OEB, file, strong, providesMetaInfo, acceptsFile) then Some(2)
              else None
  {
    var plugins := FreshCollection().plugins;
    assert plugins[0] == FB2 && plugins[1] == Html && plugins[2] == OEB;
  }
}
