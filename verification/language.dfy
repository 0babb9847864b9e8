/** Language resolution of the `create` command (cmd/create_test.go,
    `mockDetectLanguage`): an explicit language override short-circuits
    detection; otherwise the classifier's ranked candidates are tried in
    order and the first one the registry supports wins.

    The collaborators are parameters: the classifier's answer for the
    destination directory is a `Result` holding the ranked language names,
    the alias table is a total function on names, and the registry built for
    the destination is a value. */
module LanguageResolution {
  import opened Wrappers
  import opened Strings

  /** The scaffolding-profile registry built for one destination directory. */
  datatype Registry<C> = Registry(supported: set<string>, configs: map<string, C>) {

    predicate ContainsLanguage(id: string) {
      id in supported
    }

    /** The profile for `id`, or `None` where Go would return nil. */
    function GetConfig(id: string): Option<C> {
      if id in configs then Some(configs[id]) else None
    }

    /** Every supported language has a profile and no identifier is empty. */
    predicate WellFormed() {
      && supported <= configs.Keys
      && "" !in supported
    }
  }

  datatype ResolveError =
    | NoLanguageDetected
      /** The classifier failed; its error survives only as text in the message. */
    | DetectionFailed(cause: string)

  /** Go's `(*DraftConfig, string, error)` triple. On the detection path the
      configuration is whatever the registry returns and may be nil. */
  datatype Resolution<C> =
    | Resolved(config: Option<C>, id: string)
    | Unresolved(error: ResolveError)

  const Go: string := "go"
  const GoModule: string := "gomodule"

  /** A raw classifier name mapped through the alias table and lowercased. */
  function Canonical(alias: string -> string, name: string): string {
    Lower(alias(name))
  }

  /** Candidate `k` is supported and every earlier candidate is not. */
  predicate IsFirstSupported<C>(langs: seq<string>, alias: string -> string, reg: Registry<C>, k: int) {
    && 0 <= k < |langs|
    && reg.ContainsLanguage(Canonical(alias, langs[k]))
    && forall j :: 0 <= j < k ==> !reg.ContainsLanguage(Canonical(alias, langs[j]))
  }

  /** No candidate of the ranked list is supported. */
  predicate NoneSupported<C>(langs: seq<string>, alias: string -> string, reg: Registry<C>) {
    forall j :: 0 <= j < |langs| ==> !reg.ContainsLanguage(Canonical(alias, langs[j]))
  }

  /** The index of the first supported candidate at or after `i`. */
  function FirstSupportedFrom<C>(langs: seq<string>, alias: string -> string, reg: Registry<C>, i: nat): (r: Option<nat>)
    requires i <= |langs|
    ensures r.Some? ==> i <= r.value < |langs| && reg.ContainsLanguage(Canonical(alias, langs[r.value]))
    ensures r.Some? ==> forall j :: i <= j < r.value ==> !reg.ContainsLanguage(Canonical(alias, langs[j]))
    ensures r.None? ==> forall j :: i <= j < |langs| ==> !reg.ContainsLanguage(Canonical(alias, langs[j]))
    decreases |langs| - i
  {
    if i == |langs| then None
    else if reg.ContainsLanguage(Canonical(alias, langs[i])) then Some(i)
    else FirstSupportedFrom(langs, alias, reg, i + 1)
  }

  /** The specialised-variant substitution: "go" becomes "gomodule" only
      when both signals are set. */
  function Variant(id: string, hasGo: bool, hasGoMod: bool): (v: string)
    ensures v == GoModule <==> (id == Go && hasGo && hasGoMod) || id == GoModule
    ensures v != id ==> id == Go && v == GoModule
  {
    if id == Go && hasGo && hasGoMod then GoModule else id
  }

  /** Resolution with the two variant signals as inputs. `mockDetectLanguage`
      fixes both to false; `MockDetectLanguage` below is that instance. */
  function Resolve<C>(
    override: string, detect: Result<seq<string>, string>, alias: string -> string,
    reg: Registry<C>, hasGo: bool, hasGoMod: bool): (r: Resolution<C>)
    // an override is looked up directly and must have a profile
    ensures override != "" ==> (r.Resolved? <==> Lower(override) in reg.configs)
    ensures override != "" && r.Resolved? ==>
              r.id == Lower(override) && r.config == Some(reg.configs[Lower(override)])
    ensures override != "" && r.Unresolved? ==> r.error == NoLanguageDetected
    // without an override, the classifier's failure is reported as such
    ensures override == "" && detect.Err? ==> r == Unresolved(DetectionFailed(detect.error))
    ensures override == "" && detect.Ok? && |detect.value| == 0 ==> r == Unresolved(NoLanguageDetected)
    // without an override, failure means that no candidate is supported
    ensures override == "" && detect.Ok? ==>
              (r.Unresolved? <==> NoneSupported(detect.value, alias, reg))
    ensures override == "" && detect.Ok? && r.Unresolved? ==> r.error == NoLanguageDetected
    // on the detection path the configuration is the registry's answer for the identifier
    ensures override == "" && r.Resolved? ==> r.config == reg.GetConfig(r.id)
    // every identifier handed back is in lower case
    ensures r.Resolved? ==> IsLower(r.id)
  {
    if override != "" then
      var id := Lower(override);
      LowerIsLower(override);
      match reg.GetConfig(id)
      case None => Unresolved(NoLanguageDetected)
      case Some(c) => Resolved(Some(c), id)
    else
      match detect
      case Err(e) => Unresolved(DetectionFailed(e))
      case Ok(langs) =>
        if |langs| == 0 then Unresolved(NoLanguageDetected)
        else
          match FirstSupportedFrom(langs, alias, reg, 0)
          case None => Unresolved(NoLanguageDetected)
          case Some(k) =>
            var id := Variant(Canonical(alias, langs[k]), hasGo, hasGoMod);
            LowerIsLower(alias(langs[k]));
            Resolved(reg.GetConfig(id), id)
  }

  /** `mockDetectLanguage`, written as its loop with an early return. The
      two variant signals are locals that start false and are never set. */
  method MockDetectLanguage<C>(
    override: string, detect: Result<seq<string>, string>, alias: string -> string, reg: Registry<C>)
    returns (r: Resolution<C>)
    ensures r == Resolve(override, detect, alias, reg, false, false)
  {
    var hasGo := false;
    var hasGoMod := false;
    var langs: seq<string> := [];
    if override == "" {
      match detect {
        case Err(e) =>
          return Unresolved(DetectionFailed(e));
        case Ok(ls) =>
          langs := ls;
      }
      if |langs| == 0 {
        return Unresolved(NoLanguageDetected);
      }
    }
    if override != "" {
      var lowerLang := Lower(override);
      var langConfig := reg.GetConfig(lowerLang);
      if langConfig.None? {
        return Unresolved(NoLanguageDetected);
      }
      return Resolved(langConfig, lowerLang);
    }
    var i := 0;
    while i < |langs|
      invariant 0 <= i <= |langs|
      invariant detect == Ok(langs)
      invariant forall j :: 0 <= j < i ==> !reg.ContainsLanguage(Canonical(alias, langs[j]))
    {
      var lowerLang := Lower(alias(langs[i]));
      if reg.ContainsLanguage(lowerLang) {
        FirstSupportedIsUnique(langs, alias, reg, i);
        if lowerLang == Go && hasGo && hasGoMod {
          lowerLang := GoModule;
        }
        return Resolved(reg.GetConfig(lowerLang), lowerLang);
      }
      i := i + 1;
    }
    return Unresolved(NoLanguageDetected);
  }

  /** The search finds exactly the first supported candidate. */
  lemma FirstSupportedIsUnique<C>(langs: seq<string>, alias: string -> string, reg: Registry<C>, k: int)
    requires IsFirstSupported(langs, alias, reg, k)
    ensures FirstSupportedFrom(langs, alias, reg, 0) == Some(k)
  {
  }

  /** With an override, neither the classifier, nor the alias table, nor the
      variant signals are consulted. */
  lemma OverrideShortCircuits<C>(
    override: string, reg: Registry<C>,
    detect1: Result<seq<string>, string>, alias1: string -> string, hasGo1: bool, hasGoMod1: bool,
    detect2: Result<seq<string>, string>, alias2: string -> string, hasGo2: bool, hasGoMod2: bool)
    requires override != ""
    ensures Resolve(override, detect1, alias1, reg, hasGo1, hasGoMod1)
         == Resolve(override, detect2, alias2, reg, hasGo2, hasGoMod2)
  {
  }

  /** The first supported candidate in classifier order wins, with its
      canonical name (after the variant substitution) as the identifier. */
  lemma FirstSupportedWins<C>(
    langs: seq<string>, alias: string -> string, reg: Registry<C>, hasGo: bool, hasGoMod: bool, k: int)
    requires IsFirstSupported(langs, alias, reg, k)
    ensures var id := Variant(Canonical(alias, langs[k]), hasGo, hasGoMod);
            Resolve("", Ok(langs), alias, reg, hasGo, hasGoMod) == Resolved(reg.GetConfig(id), id)
  {
    FirstSupportedIsUnique(langs, alias, reg, k);
  }

  /** Candidates ranked after the winner are never examined: replacing them
      leaves the resolution unchanged. */
  lemma LaterCandidatesIgnored<C>(
    langs1: seq<string>, langs2: seq<string>, alias: string -> string, reg: Registry<C>,
    hasGo: bool, hasGoMod: bool, k: int)
    requires IsFirstSupported(langs1, alias, reg, k)
    requires k < |langs2| && langs1[..k + 1] == langs2[..k + 1]
    ensures Resolve("", Ok(langs1), alias, reg, hasGo, hasGoMod)
         == Resolve("", Ok(langs2), alias, reg, hasGo, hasGoMod)
  {
    forall j | 0 <= j <= k
      ensures langs2[j] == langs1[j]
    {
      assert langs1[..k + 1][j] == langs2[..k + 1][j];
    }
    assert IsFirstSupported(langs2, alias, reg, k);
    FirstSupportedWins(langs1, alias, reg, hasGo, hasGoMod, k);
    FirstSupportedWins(langs2, alias, reg, hasGo, hasGoMod, k);
  }

  /** Every successful detection names a candidate of the list: either the
      first supported one or its "gomodule" variant. */
  lemma DetectionPicksFirstSupported<C>(
    langs: seq<string>, alias: string -> string, reg: Registry<C>, hasGo: bool, hasGoMod: bool)
    requires Resolve("", Ok(langs), alias, reg, hasGo, hasGoMod).Resolved?
    ensures exists k :: IsFirstSupported(langs, alias, reg, k)
              && Resolve("", Ok(langs), alias, reg, hasGo, hasGoMod).id
                 == Variant(Canonical(alias, langs[k]), hasGo, hasGoMod)
  {
    var k := FirstSupportedFrom(langs, alias, reg, 0).value;
    assert IsFirstSupported(langs, alias, reg, k);
  }

  /** With both variant signals false, as in the Go code, the substitution
      never fires: "gomodule" comes back only if a candidate itself
      canonicalises to it. */
  lemma GoModuleUnreachable<C>(
    override: string, detect: Result<seq<string>, string>, alias: string -> string, reg: Registry<C>)
    requires override == "" && detect.Ok?
    requires forall j :: 0 <= j < |detect.value| ==> Canonical(alias, detect.value[j]) != GoModule
    ensures Resolve(override, detect, alias, reg, false, false).Resolved? ==>
              Resolve(override, detect, alias, reg, false, false).id != GoModule
  {
    if Resolve(override, detect, alias, reg, false, false).Resolved? {
      DetectionPicksFirstSupported(detect.value, alias, reg, false, false);
    }
  }

  /** A Go project whose classifier reports only "Go", with a registry that
      supports both "go" and "gomodule", resolves to plain "go". */
  lemma GoProjectResolvesToGo<C>(cGo: C, cMod: C)
    ensures var reg := Registry({Go, GoModule}, map[Go := cGo, GoModule := cMod]);
            Resolve("", Ok(["Go"]), (name: string) => name, reg, false, false) == Resolved(Some(cGo), Go)
  {
    var reg := Registry({Go, GoModule}, map[Go := cGo, GoModule := cMod]);
    var alias := (name: string) => name;
    assert Canonical(alias, "Go") == Go;
    FirstSupportedWins(["Go"], alias, reg, false, false, 0);
  }

  /** The returned identifier is already lower case: lowercasing it again
      changes nothing. */
  lemma IdentifierIsCanonical<C>(
    override: string, detect: Result<seq<string>, string>, alias: string -> string,
    reg: Registry<C>, hasGo: bool, hasGoMod: bool)
    requires Resolve(override, detect, alias, reg, hasGo, hasGoMod).Resolved?
    ensures var id := Resolve(override, detect, alias, reg, hasGo, hasGoMod).id;
            Lower(id) == id
  {
    LowerFixesLower(Resolve(override, detect, alias, reg, hasGo, hasGoMod).id);
  }

  /** The expectation of the command's test: against a well-formed registry,
      an override that has a profile or a detection with a supported
      candidate yields a configuration, a non-empty identifier and no error. */
  lemma SuccessfulResolutionIsComplete<C>(
    override: string, detect: Result<seq<string>, string>, alias: string -> string,
    reg: Registry<C>, hasGo: bool, hasGoMod: bool)
    requires reg.WellFormed()
    requires hasGo && hasGoMod ==> GoModule in reg.supported
    requires override != "" ==> Lower(override) in reg.configs
    requires override == "" ==> detect.Ok? && !NoneSupported(detect.value, alias, reg)
    ensures var r := Resolve(override, detect, alias, reg, hasGo, hasGoMod);
            r.Resolved? && r.config.Some? && r.id != ""
  {
    var r := Resolve(override, detect, alias, reg, hasGo, hasGoMod);
    if override != "" {
      LowerEmpty(override);
    } else {
      DetectionPicksFirstSupported(detect.value, alias, reg, hasGo, hasGoMod);
    }
  }
}
