/** First-match plugin selection: `PluginCollection.getPlugin(file, strong)`.

    The plugins' own capabilities (`providesMetaInfo`, `acceptsFile`) are
    opaque; they are passed in as total functions so that every property
    below holds for every possible plugin implementation. */
module Selection {
  import opened Wrappers

  /** The test applied to each plugin in turn: a strong lookup only admits
      plugins that provide meta information, and the plugin must accept the
      file. */
  predicate Eligible<P, F>(p: P, file: F, strong: bool,
                           providesMetaInfo: P -> bool, acceptsFile: (P, F) -> bool)
    ensures Eligible(p, file, strong, providesMetaInfo, acceptsFile) ==> acceptsFile(p, file)
    ensures strong && Eligible(p, file, strong, providesMetaInfo, acceptsFile) ==> providesMetaInfo(p)
    ensures !strong ==> (Eligible(p, file, strong, providesMetaInfo, acceptsFile) <==> acceptsFile(p, file))
    ensures strong && providesMetaInfo(p) && acceptsFile(p, file) ==>
              Eligible(p, file, strong, providesMetaInfo, acceptsFile)
  {
    (!strong || providesMetaInfo(p)) && acceptsFile(p, file)
  }

  /** Reference definition of the selection, by recursion on the list: the
      index of the first eligible plugin, or None. */
  function FirstEligible<P, F>(plugins: seq<P>, file: F, strong: bool,
                               providesMetaInfo: P -> bool, acceptsFile: (P, F) -> bool): (r: Option<nat>)
    ensures r.Some? ==> r.value < |plugins|
    ensures r.Some? ==> Eligible(plugins[r.value], file, strong, providesMetaInfo, acceptsFile)
    ensures r.Some? ==> forall j :: 0 <= j < r.value ==>
              !Eligible(plugins[j], file, strong, providesMetaInfo, acceptsFile)
    ensures r.None? <==> forall j :: 0 <= j < |plugins| ==>
              !Eligible(plugins[j], file, strong, providesMetaInfo, acceptsFile)
    decreases |plugins|
  {
    if |plugins| == 0 then None
    else if Eligible(plugins[0], file, strong, providesMetaInfo, acceptsFile) then Some(0)
    else match FirstEligible(plugins[1..], file, strong, providesMetaInfo, acceptsFile)
      case None => None
      case Some(k) => Some(k + 1)
  }

  /** The scan as the source performs it: walk the list front to back and
      return the first eligible plugin, or None (Java's null) when the loop
      runs out. */
  method GetPlugin<P, F>(plugins: seq<P>, file: F, strong: bool,
                         providesMetaInfo: P -> bool, acceptsFile: (P, F) -> bool)
    returns (r: Option<P>)
    ensures r.None? <==> forall j :: 0 <= j < |plugins| ==>
              !Eligible(plugins[j], file, strong, providesMetaInfo, acceptsFile)
    ensures r.Some? ==> FirstEligible(plugins, file, strong, providesMetaInfo, acceptsFile).Some?
    ensures r.Some? ==> r.value == plugins[FirstEligible(plugins, file, strong, providesMetaInfo, acceptsFile).value]
    ensures r.Some? && strong ==> providesMetaInfo(r.value)
  {
    var i := 0;
    while i < |plugins|
      invariant 0 <= i <= |plugins|
      invariant forall j :: 0 <= j < i ==>
                  !Eligible(plugins[j], file, strong, providesMetaInfo, acceptsFile)
    {
      var fp := plugins[i];
      if (!strong || providesMetaInfo(fp)) && acceptsFile(fp, file) {
        FirstEligibleAt(plugins, file, strong, providesMetaInfo, acceptsFile, i);
        return Some(fp);
      }
      i := i + 1;
    }
    return None;
  }

  /** An eligible plugin preceded only by ineligible ones is the one selected. */
  lemma FirstEligibleAt<P, F>(plugins: seq<P>, file: F, strong: bool,
                              providesMetaInfo: P -> bool, acceptsFile: (P, F) -> bool, i: nat)
    requires i < |plugins|
    requires Eligible(plugins[i], file, strong, providesMetaInfo, acceptsFile)
    requires forall j :: 0 <= j < i ==> !Eligible(plugins[j], file, strong, providesMetaInfo, acceptsFile)
    ensures FirstEligible(plugins, file, strong, providesMetaInfo, acceptsFile) == Some(i)
  {
  }

  /** Registration order alone breaks ties: when plugins i < j both qualify,
      the one at j is never selected and the one selected is no later than i. */
  lemma OrderPrecedence<P, F>(plugins: seq<P>, file: F, strong: bool,
                              providesMetaInfo: P -> bool, acceptsFile: (P, F) -> bool, i: nat, j: nat)
    requires i < j < |plugins|
    requires Eligible(plugins[i], file, strong, providesMetaInfo, acceptsFile)
    requires Eligible(plugins[j], file, strong, providesMetaInfo, acceptsFile)
    ensures FirstEligible(plugins, file, strong, providesMetaInfo, acceptsFile).Some?
    ensures FirstEligible(plugins, file, strong, providesMetaInfo, acceptsFile).value <= i
  {
  }

  /** The weak lookup never picks a later plugin than the strong one, finds a
      plugin whenever the strong one does, and picks a different plugin only
      when its choice does not provide meta information. */
  lemma WeakNotAfterStrong<P, F>(plugins: seq<P>, file: F,
                                 providesMetaInfo: P -> bool, acceptsFile: (P, F) -> bool)
    ensures var s := FirstEligible(plugins, file, true, providesMetaInfo, acceptsFile);
            var w := FirstEligible(plugins, file, false, providesMetaInfo, acceptsFile);
            (s.Some? ==> w.Some? && w.value <= s.value) &&
            (w.Some? && w != s ==> !providesMetaInfo(plugins[w.value]))
  {
    var s := FirstEligible(plugins, file, true, providesMetaInfo, acceptsFile);
    var w := FirstEligible(plugins, file, false, providesMetaInfo, acceptsFile);
    if s.Some? {
      assert Eligible(plugins[s.value], file, false, providesMetaInfo, acceptsFile);
      assert w.Some?;
    }
    if w.Some? && providesMetaInfo(plugins[w.value]) {
      assert Eligible(plugins[w.value], file, true, providesMetaInfo, acceptsFile);
      assert s.Some? && s.value <= w.value;
      assert Eligible(plugins[s.value], file, false, providesMetaInfo, acceptsFile);
    }
  }

  /** A plugin that accepts the file but provides no meta information is
      returned by the weak lookup when no earlier plugin accepts the file,
      and is skipped by the strong lookup. */
  lemma StrongFiltering<P, F>(plugins: seq<P>, file: F,
                              providesMetaInfo: P -> bool, acceptsFile: (P, F) -> bool, k: nat)
    requires k < |plugins|
    requires acceptsFile(plugins[k], file) && !providesMetaInfo(plugins[k])
    requires forall j :: 0 <= j < k ==> !acceptsFile(plugins[j], file)
    ensures FirstEligible(plugins, file, false, providesMetaInfo, acceptsFile) == Some(k)
    ensures var s := FirstEligible(plugins, file, true, providesMetaInfo, acceptsFile);
            s.None? || s.value > k
  {
    FirstEligibleAt(plugins, file, false, providesMetaInfo, acceptsFile, k);
  }

  /** An empty list selects nothing, whether or not the lookup is strong. */
  lemma EmptyListSelectsNothing<P, F>(file: F, providesMetaInfo: P -> bool, acceptsFile: (P, F) -> bool)
    ensures FirstEligible([], file, false, providesMetaInfo, acceptsFile).None?
    ensures FirstEligible([], file, true, providesMetaInfo, acceptsFile).None?
  {
  }
}
