# FBReaderJ format plugins: selection and encoding/language detection

A Dafny model of the decision logic in FBReaderJ's `FormatPlugin` class
(`src/org/geometerplus/fbreader/formats/FormatPlugin.java`):

- **Plugin selection** (`PluginCollection.getPlugin(file, strong)`), module
  `Selection`. This is a first-match scan over the ordered plugin list. A
  plugin qualifies when `(!strong || providesMetaInfo()) && acceptsFile(file)`.
  The two capabilities are opaque, so they are passed in as total functions.
  `FirstEligible` is the reference definition by recursion. `GetPlugin` is
  the source's loop, and it is proved to agree with `FirstEligible`.
- **The plugin registry** (`PluginCollection.instance()`, `deleteInstance()`
  and the private constructor), module `Registry`. The static `ourInstance`
  field is a two-state value: `Absent` (null) or `Built(collection)`. A
  collection holds the plugins FB2, Html, OEB in that order, plus three
  options with defaults AutoDetect = true, DefaultLanguage = "en" and
  DefaultEncoding = "windows-1252".
- **Encoding/language resolution** (`detectEncodingAndLanguage`), module
  `Detection`. The book description is reduced to its language and encoding
  fields. The stream is a byte sequence with a closed flag and a "faulty"
  flag, which stands for a read that raises `IOException`. The sniffer
  `ZLLanguageDetector.findInfo` is an arbitrary function from the sample to
  an optional `(language, encoding)` pair. The procedure builds the registry
  when a field is missing, because it calls `instance()`. Its result records
  the singleton's next state, the written-back description, the stream and
  the sample handed to the sniffer. An escaping `IOException` is the `Thrown`
  outcome.

Three behaviours of the code are worth noting, and the model keeps them:

- A successful detection replaces both fields, even ones that were already
  non-empty (lines 72-74). `DetectionOverridesExplicitEncoding` shows this on
  a concrete input.
- The stream is closed only on the normal path; there is no try/finally
  (lines 67-68). If the read throws, the exception propagates, nothing is
  written back and the stream stays open. This is the `Thrown` outcome.
- `instance()` is a plain null check with no synchronisation (line 129).

## Model

| member | source | states |
|---|---|---|
| Selection.Eligible | src/org/geometerplus/fbreader/formats/FormatPlugin.java:166 | a qualifying plugin accepts the file; under a strong lookup it also provides meta information, and such a plugin always qualifies; under a non-strong lookup, qualifying is exactly accepting the file |
| Selection.FirstEligible | src/org/geometerplus/fbreader/formats/FormatPlugin.java:161-171 | the index of a plugin that passes `(!strong \|\| providesMetaInfo) && acceptsFile` with every earlier plugin failing it; None exactly when no plugin in the list passes |
| Selection.GetPlugin | src/org/geometerplus/fbreader/formats/FormatPlugin.java:161-171 | the front-to-back loop returns null exactly when no plugin qualifies; otherwise it returns the plugin at the lowest qualifying index; under a strong lookup that plugin provides meta information |
| Selection.FirstEligibleAt | src/org/geometerplus/fbreader/formats/FormatPlugin.java:164-168 | a qualifying plugin preceded only by non-qualifying ones is the one the scan returns |
| Selection.OrderPrecedence | src/org/geometerplus/fbreader/formats/FormatPlugin.java:164-168 | when two plugins both qualify, the earlier-registered one wins |
| Selection.WeakNotAfterStrong | src/org/geometerplus/fbreader/formats/FormatPlugin.java:166 | the non-strong lookup's index is never after the strong one's; it finds a plugin whenever the strong lookup does; when the two differ, the non-strong choice lacks meta information |
| Selection.StrongFiltering | src/org/geometerplus/fbreader/formats/FormatPlugin.java:166 | the first plugin that accepts the file but has no meta information is returned by the non-strong lookup and skipped by the strong lookup |
| Selection.EmptyListSelectsNothing | src/org/geometerplus/fbreader/formats/FormatPlugin.java:163-170 | an empty list yields null for both values of `strong` |
| Registry.FreshCollection | src/org/geometerplus/fbreader/formats/FormatPlugin.java:130-159 | a newly constructed collection lists FB2, Html, OEB in that order, with AutoDetect true, DefaultLanguage "en" and DefaultEncoding "windows-1252" |
| Registry.Instance | src/org/geometerplus/fbreader/formats/FormatPlugin.java:128-147 | afterwards the singleton holds the returned collection; an existing instance is returned unchanged; a new one lists FB2, Html, OEB with options true / "en" / "windows-1252" |
| Registry.DeleteInstance | src/org/geometerplus/fbreader/formats/FormatPlugin.java:149-153 | the singleton is cleared, so the next `instance()` hands out a fresh collection |
| Registry.InstanceIdempotent | src/org/geometerplus/fbreader/formats/FormatPlugin.java:129-146 | a repeated `instance()` returns the same collection and leaves the state unchanged |
| Registry.DeleteThenInstanceRebuilds | src/org/geometerplus/fbreader/formats/FormatPlugin.java:128-153 | after `deleteInstance()`, `instance()` rebuilds from scratch whatever the old instance held |
| Registry.RunKeepsConsistent | src/org/geometerplus/fbreader/formats/FormatPlugin.java:128-159 | every sequence of `instance()`/`deleteInstance()` calls keeps a built singleton equal to a freshly constructed collection |
| Registry.EveryInstanceIsFresh | src/org/geometerplus/fbreader/formats/FormatPlugin.java:128-159 | from program start, every collection `instance()` returns lists FB2, Html, OEB and carries the default options |
| Registry.BuiltInPriority | src/org/geometerplus/fbreader/formats/FormatPlugin.java:128-171 | on the built-in list, selection prefers FB2, then Html, then OEB |
| Detection.NormalizeEncoding | src/org/geometerplus/fbreader/formats/FormatPlugin.java:75-77 | the result is never US-ASCII or ISO-8859-1; it differs from the input only when the input is one of those two, and then it is windows-1252 |
| Detection.NormalizeIdempotent | src/org/geometerplus/fbreader/formats/FormatPlugin.java:75-77 | normalising an already normalised encoding changes nothing |
| Detection.Read | src/org/geometerplus/fbreader/formats/FormatPlugin.java:65-67 | the read fails exactly on a closed or faulty stream; otherwise it returns at most the buffer size; the bytes read and the bytes left make up the stream's contents; only the end of the data cuts the read short |
| Detection.Close | src/org/geometerplus/fbreader/formats/FormatPlugin.java:68 | the stream is marked closed and is otherwise unchanged |
| Detection.Seed | src/org/geometerplus/fbreader/formats/FormatPlugin.java:58-63 | an empty field takes the option's default value, and a non-empty field is kept |
| Detection.DetectEncodingAndLanguage | src/org/geometerplus/fbreader/formats/FormatPlugin.java:53-83 | with both fields set, nothing is touched and no read happens; otherwise the registry gets built; with auto-detect off or no stream, defaults fill exactly the empty fields and nothing is read; with detection on, there is one read of at most 65536 bytes and the stream is closed after it on the normal path, while a failing read escapes with the stream open; a detector answer replaces both fields, with US-ASCII and ISO-8859-1 normalised; no answer leaves the seeded values |
| Detection.ExplicitFieldsKeptUnlessDetected | src/org/geometerplus/fbreader/formats/FormatPlugin.java:54-81 | a non-empty field comes back unchanged unless the detector answered |
| Detection.DetectionOverridesExplicitEncoding | src/org/geometerplus/fbreader/formats/FormatPlugin.java:72-74 | an explicit KOI8-R encoding is replaced by the detector's encoding |
| Detection.Latin1BecomesWindows1252 | src/org/geometerplus/fbreader/formats/FormatPlugin.java:72-77 | a detected ISO-8859-1 is written back as windows-1252, and the language is the detected one |
| Detection.DefaultsOnFirstUse | src/org/geometerplus/fbreader/formats/FormatPlugin.java:53-83 | on first use with no stream, an empty description receives "en" and "windows-1252", and the registry is left built |
| Detection.ResolutionIsStable | src/org/geometerplus/fbreader/formats/FormatPlugin.java:56-81 | with non-empty defaults and non-empty detector answers, a normal return fills both fields, so a second call is a no-op |

## Left out

- `ZLFSManager` (the file-system facade): it has only abstract methods and an uninitialised map, so there is no logic to model.
- Concrete plugins `FB2Plugin`, `HtmlPlugin` and `OEBPlugin` are not part of this model. Their `acceptsFile` and `providesMetaInfo` are arbitrary functions, and `readDescription`/`readModel` (parsing) are not modelled.
- `ZLLanguageDetector.findInfo` is not part of this model. It is an arbitrary function of the sample.
- `getIconName`, `tryOpen` (always `""`), `createInfoPage` (always null) and `FormatInfoPage` have no logic.
- The commented-out earlier version of `detectEncodingAndLanguage` (lines 84-113) is dead code.
- Option persistence (`ZLStringOption`, `ZLBooleanOption`): options are plain values. No modelled operation changes them, so every reachable collection carries the constructor's defaults. `DetectEncodingAndLanguage` is still stated for a singleton holding any option values.
- Registry.EveryInstanceIsFresh: the options it states are the constructor's defaults (lines 156-158). It does not cover what `getValue()` returns after a user changes a stored setting.
- Registry.Instance: plugin constructors are assumed not to throw. In the code, `ourInstance` is assigned (line 130) before the plugins are added (lines 131-142). A throwing constructor would leave a partly filled list, such as `[FB2]`, that every later `instance()` returns. A second caller without synchronisation could also see a partial list. `RunKeepsConsistent` holds only under this assumption.
- Thread safety of `instance()`: the code has no guard, so no concurrency is modelled and no claim is made.
- Detection.Read: assumes `InputStream.read` fills the buffer as far as the data allows. A real stream may return fewer bytes. At end of stream it returns -1, and the model then hands the sniffer an empty sample.
- Detection.DetectEncodingAndLanguage: an `IOException` from `close()` is not modelled; only a failing read is. The model says nothing about how many times a stream gets closed.
- Detection.NormalizeEncoding: the source compares with `==`, which is Java reference equality and relies on the detector returning interned string constants. The model uses value equality.
- Java `null` for a description field is not modelled. Fields are strings, and the empty string means unset.
