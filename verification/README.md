# Language resolution and manifest validation of the draft CLI

This project models two decision procedures of the `draft` scaffolding CLI
and proves properties of them in Dafny.

- **Language resolution** (`mockDetectLanguage` in `cmd/create_test.go`):
  a non-empty language override is lowercased and looked up in the
  profile registry, and detection is skipped entirely; an override without a
  profile is a hard `ErrNoLanguageDetected`. Without an override the language
  classifier's ranked language list is walked in order. Each name is mapped
  through the alias table and lowercased. The first candidate the registry
  supports wins, after the "go" → "gomodule" variant check, and unsupported
  candidates are skipped. A classifier error becomes a detection error; an
  empty list or a list with no supported candidate becomes
  `ErrNoLanguageDetected`.
- **Manifest validation** (`getManifests` and `validateCmd.run` in
  `cmd/validate.go`): an empty manifest path is refused. Then the path is
  stat-ed. A file is validated on its own, and a directory is walked,
  keeping every non-directory entry in visiting order. A walk error at any
  entry discards the whole list. The list goes to the rule engine, whose
  error is returned unchanged.

Modules:

- `Wrappers` (wrappers.dfy): `Option` (Go's nil-or-value) and `Result`
  (Go's value-or-error).
- `Strings` (strings.dfy): ASCII lowercasing and its idempotence.
- `LanguageResolution` (language.dfy):
  - the registry, the candidate search and the variant substitution;
  - `Resolve`, the declarative resolver, with the two variant signals as inputs;
  - `MockDetectLanguage`, the Go function's loop with its early return, proved
    equal to `Resolve` with both signals false.
- `Validate` (validate.dfy): the walk entries, `GetManifests`, `Run` and
  the lemmas about the manifest list.

Collaborators are parameters:

- the classifier's answer is a `Result<seq<string>, string>` holding the
  ranked names;
- the alias table is a function `string -> string`;
- the registry is a set of supported identifiers plus a map from identifier
  to profile;
- the stat of the manifest path is a `Result<bool, string>`;
- the walk is the sequence of entries that `fs.WalkDir` visits, each a
  visited entry (with its is-directory flag) or an error at a path;
- the rule engine is a function from a manifest list to an optional error.

"Never consulted" is stated as independence: the result is the same
whatever value the collaborator has. `Run` returns an `Outcome`, which is the
error the command returns together with the manifest list it handed to the
rule engine, if it got that far. Handing the list over is the one call to
the rule engine.

On the detection path, the Go code returns whatever `GetConfig` gives for a
supported identifier and does not check it for nil. A supported language
without a profile therefore yields a nil configuration with a nil error.
The model keeps this: `Resolution.config` is an `Option`. So a successful
resolution need not carry a profile; `SuccessfulResolutionIsComplete` gives
the registry condition under which it does.

## Model

| member | source | states |
|---|---|---|
| Strings.Lower | cmd/create_test.go:71 | lowercasing keeps the length and maps each character through ASCII lowercasing |
| Strings.LowerIdempotent | cmd/create_test.go:83 | lowercasing an already lowercased name changes nothing |
| Strings.LowerEmpty | cmd/create_test.go:71 | a name lowercases to the empty string exactly when it is empty |
| LanguageResolution.FirstSupportedFrom | cmd/create_test.go:80-95 | the search returns a supported candidate with every earlier candidate unsupported, or reports that no candidate from the start index on is supported |
| LanguageResolution.Variant | cmd/create_test.go:86-89 | the result is "gomodule" exactly when the identifier is "go" with both signals set, or already "gomodule"; any change is go → gomodule |
| LanguageResolution.Resolve | cmd/create_test.go:43-97 | override: resolved iff the lowercased override has a profile, with that profile and identifier, else NoLanguageDetected; classifier error → DetectionFailed with its cause; empty list → NoLanguageDetected; failure iff no candidate is supported; the detection-path config is the registry's answer for the identifier; identifiers are lower case |
| LanguageResolution.MockDetectLanguage | cmd/create_test.go:43-97 | the loop with early return computes the same resolution as the first-match definition with both variant signals false |
| LanguageResolution.FirstSupportedIsUnique | cmd/create_test.go:80-93 | the search finds exactly the first supported candidate |
| LanguageResolution.OverrideShortCircuits | cmd/create_test.go:69-78 | with a non-empty override the result does not depend on the classifier, the alias table or the variant signals |
| LanguageResolution.FirstSupportedWins | cmd/create_test.go:80-93 | when candidate k is the first supported one, the result is its alias-mapped lowercased name (after the variant check) with the registry's profile for it |
| LanguageResolution.LaterCandidatesIgnored | cmd/create_test.go:80-93 | changing the candidates ranked after the winner does not change the result |
| LanguageResolution.DetectionPicksFirstSupported | cmd/create_test.go:80-93 | every detection success names the first supported candidate, possibly as its variant |
| LanguageResolution.GoModuleUnreachable | cmd/create_test.go:86-89 | with both signals false, as `mockDetectLanguage` initialises them at lines 44-45, "gomodule" is returned only if a candidate itself canonicalises to it |
| LanguageResolution.GoProjectResolvesToGo | cmd/create_test.go:80-93 | a classifier answer of just "Go" against a registry holding "go" and "gomodule" resolves to plain "go" |
| LanguageResolution.IdentifierIsCanonical | cmd/create_test.go:69-92 | a returned identifier is a fixed point of lowercasing |
| LanguageResolution.SuccessfulResolutionIsComplete | cmd/create_test.go:36-40 | against a registry where every supported language has a profile and no identifier is empty, a matched override or a detection with a supported candidate gives a configuration, a non-empty identifier and no error |
| Validate.FirstFault | cmd/validate.go:58-61 | the first entry at which the walk reports an error, with every earlier entry visited cleanly |
| Validate.GetManifests | cmd/validate.go:54-77 | succeeds iff no entry reports an error, then yields exactly the non-directory paths in visiting order; otherwise the error names the first faulty entry and no list is returned |
| Validate.Run | cmd/validate.go:80-114 | empty path → error before anything else; stat failure → error with nothing submitted; a file is submitted alone; a directory is submitted as its manifest list iff the walk was clean, else the walk error; the rule engine's error is returned unchanged, and success implies a submission that passed |
| Validate.ManifestPathsAppend | cmd/validate.go:63-68 | the list of a concatenated walk is the concatenation of the lists, so no reordering, dropping or adding happens |
| Validate.ManifestPathsComplete | cmd/validate.go:56-71 | every non-directory entry is listed, at the position equal to the number of non-directory entries visited before it |
| Validate.ManifestPathsSound | cmd/validate.go:63-68 | every listed path is the path of a non-directory entry, and the j-th comes from the entry with exactly j non-directory entries before it |
| Validate.ManifestPathsExcludeDirectories | cmd/validate.go:63-68 | in a walk visiting each path once, no directory path is listed |
| Validate.EmptyPathTouchesNothing | cmd/validate.go:81-83 | an empty path gives the same outcome whatever the stat, the walk and the rule engine |
| Validate.StatFailureStopsRun | cmd/validate.go:86-89 | a failed stat gives the same outcome whatever the walk and the rule engine |
| Validate.SingleFileRun | cmd/validate.go:98-100 | a non-directory path is submitted as the one-element list of itself, and the outcome is the rule engine's verdict on it |
| Validate.WalkFaultFailsRun | cmd/validate.go:93-97 | a walk error at any entry of a directory makes the run fail with a walk error and nothing submitted |

## Left out

- Strings.Lower: models ASCII lowercasing only; Go's `strings.ToLower` also folds non-ASCII letters. The properties used here are length, idempotence and emptiness, and these hold for both.
- Logging (logrus), the cobra command and its flag wiring (cmd/validate.go:18-42): these are plumbing with no effect on the results.
- `os.Stat`, `os.DirFS`, `fs.WalkDir`: these are I/O. The stat result and the visited entries are inputs, so the traversal order is whatever the walk supplies. How the DirFS root relates to the walk root (cmd/validate.go:92-94) is not modelled, and neither is the filesystem view handed to the rule engine.
- `safeguards.ValidateManifests` and its `context`: this is an external rule engine, modelled as an opaque function from the manifest list to an optional error.
- `linguist.ProcessDir`, `linguist.Alias`, `languages.CreateLanguages`, `GetConfig` and `ContainsLanguage`: these are foreign packages. They become the classifier answer, the alias function and the registry value. The classifier's percentages and colours are only logged, so a candidate is just its name.
- The wording of the Go error messages: errors are datatype constructors carrying the cause and path. The stat and walk errors wrap their cause with `%w` (cmd/validate.go:60, 73, 88).
- LanguageResolution.DetectionFailed: carries the text of the classifier's error, not a wrapped error; cmd/create_test.go:53 formats the cause with `%s`, so `errors.Is` and `errors.Unwrap` cannot reach it.
- The re-check of `err` at cmd/validate.go:102-104: it is always nil at that point.
- The assignment `mcc.supportedLangs = languages.CreateLanguages(mcc.dest)` (cmd/create_test.go:67): the registry is passed in as the value `reg` and the write to the receiver's field is not modelled. The other `mockCreateCmd` fields (`appName`, `dockerfileOnly`, `deploymentOnly`, `createConfigPath`, `fileMatches`) are not read by the resolver.
