# clibase command helpers, modelled in Dafny

clibase bootstraps command-line applications on top of a command framework
and its flag library. This project models its two pieces of real logic:

- **Binding flags to the environment** (`cmd_root.go`). Each flag is read
  from an environment variable. The variable is the override given for the
  flag's name, or else the prefix followed by the flag name upper-cased
  with `-` turned into `_`. Every flag's usage gains a ` (${NAME})` hint.
  A non-empty value is parsed into the flag by the value's own `Set`, and a
  rejected value is only warned about. Beside it sit the advisory flag-name
  style check and the ordering of the root command's pre-run hooks.
- **The dependency listing of `version`** (`cmd_version.go`). It reads the
  `package-prefix` flag, returns early when that fails or when the binary
  has no build metadata, and lists the dependencies whose path starts with
  the prefix. A replaced dependency is shown struck through (U+0336 before
  every rune) with an arrow to its replacement. The flag defaults to
  `github.com/SkyMack` and is bound to `BASE_PACKAGE_PREFIX`.

Files:

- `wrappers.dfy`: `Option` and `Result`.
- `go_strings.dfy`: the `strings`/`unicode` operations used, over runes.
- `pflag.dfy`: the flag library as far as it is used. A value is seen as
  its type name and text. A `FlagSet` class owns a sequence of flags and is
  updated in place. Also lookup, `GetString` and `AddFlagSet`.
- `cmd_root.dfy`: environment names, the binder, the style check, hooks.
- `cmd_version.dfy`: strike-through, filtering, `version`, `addVersionFlags`.

The process environment is an explicit `map<string, string>`, read as
`os.Getenv` does: an unset variable reads as `""`. Parsers of non-string
value types are an abstract parameter `parseOther`. It returns the value
left behind and whether `Set` reported an error. Warnings are returned as
sequences of events instead of being logged.

The binder does not restore a flag's value when `Set` rejects the text
(cmd_root.go:141-143): the flag keeps whatever `Set` left behind. So
`CmdRoot.RejectedValueKept` proves that the value is kept only for parsers
that keep the value on error.

## Model

| member | source | states |
|---|---|---|
| `GoStrings.ToUpper` | cmd_root.go:121 | every rune is upper-cased (ASCII), length kept |
| `GoStrings.ReplaceAll` | cmd_root.go:121 | every occurrence of the rune is replaced, nothing else changes |
| `GoStrings.HasPrefix` | cmd_version.go:40 | true exactly when the path begins with the prefix; its use is stated by `CmdVersion.KeptMembers` |
| `Pflag.SetValue` | cmd_root.go:141 | `Value.Set`: a string value takes the text and never fails; other types are parsed by the abstract `parseOther` |
| `GoStrings.Index` | cmd_root.go:101 | -1 exactly when the rune is absent; otherwise the position of its first occurrence, counted in runes where Go counts bytes (the two agree on -1, 0 and positive, which is all line 101 tests) |
| `Pflag.GetString` | cmd_version.go:19 | succeeds exactly when a flag of that name exists and is a string flag, yielding its text; a missing flag is `NotDefined` |
| `Pflag.Lookup` | cmd_version.go:19 | finds a flag of the given name exactly when the set holds one |
| `Pflag.FlagSet.AddFlagSet` | cmd_version.go:63 | the set becomes the merge of its old flags with the other set's, name by name |
| `Pflag.Merge` | cmd_version.go:63 | each incoming flag, in order, is appended unless its name is already present |
| `Pflag.MergeKeepsBase` | cmd_version.go:63 | merging keeps the existing flags unchanged as a prefix and keeps names distinct |
| `Pflag.MergeCoversIncoming` | cmd_version.go:63 | after merging, every incoming name can be looked up |
| `Pflag.MergeAddsOnlyAbsent` | cmd_version.go:63 | merging keeps the base and adds only incoming flags whose name the base lacked |
| `CmdRoot.EnvNameForFlag` | cmd_root.go:152-155 | the name is the prefix, then one rune per flag-name rune: `-` becomes `_`, letters are upper-cased |
| `CmdRoot.ExpectedEnvName` | cmd_root.go:119-122 | an override for the flag's name is used verbatim; otherwise the name is `EnvNameForFlag`'s |
| `CmdRoot.OverrideIgnoresPrefix` | cmd_root.go:112-116 | with an override, the prefix has no influence on the variable read |
| `CmdRoot.Getenv` | cmd_root.go:133 | an unset variable reads as the empty string |
| `CmdRoot.UsageHint` | cmd_root.go:131 | the text appended to the usage, ` (${NAME})`; `UsageHintNamesVariable` states what it holds |
| `CmdRoot.UsageHintNamesVariable` | cmd_root.go:131 | the hint is six runes longer than the variable's name, which reads back whole from it |
| `CmdRoot.EnvNameForFlagInjective` | cmd_root.go:107-111 | for ASCII names: distinct flag names with no upper-case letter and no `_` get distinct variable names |
| `CmdRoot.BindFlag` | cmd_root.go:119-143 | one flag's binding: hint appended; value set from a non-empty variable, whatever `Set` leaves |
| `CmdRoot.Rejects` | cmd_root.go:134-142 | a flag is rejected when its variable is non-empty and `Set` reports an error; `RejectedValueKept` and `WarningsAreRejections` state what follows |
| `CmdRoot.WarningFor` | cmd_root.go:124-142 | the warning for a rejected flag carries its name, its variable and the variable's value |
| `CmdRoot.EnvWarnings` | cmd_root.go:141-143 | the warnings of a walk: one per flag whose non-empty variable `Set` rejects, in visiting order |
| `CmdRoot.BindOne` | cmd_root.go:118-144 | one visit yields exactly `BindFlag` of the flag, and a warning exactly when `Set` rejects its non-empty variable |
| `CmdRoot.SetFlagsFromEnvWithOverrides` | cmd_root.go:117-145 | each flag is visited once and becomes its binding; the count and order of flags are kept; the warnings are those of the rejected values |
| `CmdRoot.SetFlagsFromEnv` | cmd_root.go:147-150 | binding with an empty override map; every usage gains the hint naming `EnvNameForFlag`'s variable |
| `CmdRoot.BindFlagUsage` | cmd_root.go:131 | binding keeps the name and appends exactly ` (${NAME})` for the variable read, whether it is set or not |
| `CmdRoot.UnsetVariableKeepsValue` | cmd_root.go:133-136 | an unset or empty variable leaves the value unchanged |
| `CmdRoot.StringFlagTakesVariable` | cmd_root.go:141 | a string flag takes a non-empty variable's text as its value |
| `CmdRoot.RejectedValueKept` | cmd_root.go:141-143 | a rejected value leaves the flag's value as it was, for parsers that keep the value on error |
| `CmdRoot.RejectedIndicesOrdered` | cmd_root.go:118-143 | the rejected positions are in range and increasing, following the visiting order |
| `CmdRoot.RejectedAt` | cmd_root.go:141-143 | one position is rejected exactly when `Set` rejects that flag's non-empty value |
| `CmdRoot.RejectedIndicesExact` | cmd_root.go:141-143 | a position is rejected exactly when `Set` rejects that flag's non-empty value |
| `CmdRoot.WarningsFollowIndices` | cmd_root.go:141-143 | there is one warning per rejected position, naming that flag, its variable and its value |
| `CmdRoot.WarningsAreRejections` | cmd_root.go:141-143 | the k-th warning names the k-th flag whose non-empty variable `Set` rejected, with its variable and value; positions increase, and every rejection is warned about |
| `CmdRoot.BindingTwiceAppendsTwoHints` | cmd_root.go:131 | binding twice appends the hint twice |
| `CmdRoot.BindingKeepsNamesUnique` | cmd_root.go:118-144 | binding keeps every flag's name, so names stay distinct |
| `CmdRoot.CaseWarnings` | cmd_root.go:94-98 | every warning is a lower-case violation for the flag; at most one per rune |
| `CmdRoot.FlagStyleWarnings` | cmd_root.go:93-103 | one flag's warnings: a case warning per letter that is not lower case, then an underscore warning when the first `_` is past index 0 |
| `CmdRoot.StyleReport` | cmd_root.go:89-104 | the warnings of every flag, flag by flag |
| `CmdRoot.CheckFlagName` | cmd_root.go:90-103 | the rune loop and the underscore test yield exactly one flag's style warnings |
| `CmdRoot.CheckCobraFlags` | cmd_root.go:88-105 | reports the style warnings of every flag in order, and changes no flag |
| `CmdRoot.CaseWarningsAppend` | cmd_root.go:94-98 | case warnings split along the name, so each offending letter yields exactly one warning |
| `CmdRoot.NoCaseWarningsIffLowerCase` | cmd_root.go:93-98 | there is no case warning exactly when no letter is upper case |
| `CmdRoot.UnderscoreWarningIff` | cmd_root.go:100-103 | the underscore warning is given exactly when the name holds `_` but does not begin with it |
| `CmdRoot.LeadingUnderscorePasses` | cmd_root.go:93-103 | a name that starts with `_` and has no upper-case letter passes the check as written, though the corrected check reports it |
| `CmdRoot.HyphenLikeUnderscore` | cmd_root.go:121 | a `-` and a `_` at the same place in two names give the same variable |
| `CmdRoot.IntendedFlagStyleWarnings` | cmd_root.go:100-103 | the check as evidently intended: any `_` in the name is reported |
| `CmdRoot.IntendedCheckSilentIffConventional` | cmd_root.go:100-103 | the corrected check is silent exactly on names with no upper-case letter and no `_` |
| `CmdRoot.IntendedCheckPreventsCollisions` | cmd_root.go:101 | for ASCII names: flags passing the corrected check never share an environment variable |
| `CmdRoot.LeadingUnderscoreCollision` | cmd_root.go:101 | `_a_b` and `_a-b` both pass the check as written, yet read the same variable |
| `CmdRoot.ChainPreRun` | cmd_root.go:42-55 | without an existing hook the installed hook is the library's own |
| `CmdRoot.ChainStopsOnRootFailure` | cmd_root.go:45-48 | if the library's hook fails, its error is returned whatever the existing hook is |
| `CmdRoot.ChainRunsExistingAfterRoot` | cmd_root.go:49 | if the library's hook succeeds, the outcome is the existing hook's, run after it |
| `CmdVersion.Struck` | cmd_version.go:45-48 | twice as many runes; U+0336 at every even position, the original rune after it |
| `CmdVersion.UnstrikeStruck` | cmd_version.go:45-48 | the original text can be read back from the struck-through text |
| `CmdVersion.StrikeThrough` | cmd_version.go:45-48 | the rune loop builds exactly the struck-through text |
| `CmdVersion.RenderLine` | cmd_version.go:43-51 | the printed line: two spaces and `path version`, struck through with an arrow to the replacement when replaced |
| `CmdVersion.PlainLine` | cmd_version.go:43 | an unreplaced dependency is listed as two spaces, path, space, version |
| `CmdVersion.ReplacedLine` | cmd_version.go:44-51 | a replaced dependency is listed as the indent, exactly the struck-through `path version` (U+0336 before every rune, text recoverable), U+0336, then `  => ` and the replacement path |
| `CmdVersion.RenderDep` | cmd_version.go:43-51 | renders one dependency line |
| `CmdVersion.RenderAll` | cmd_version.go:39-52 | one printed line per dependency, in order, each its `RenderLine` |
| `CmdVersion.Kept` | cmd_version.go:39-42 | never more dependencies than given; which ones are kept is stated by `KeptMembers`, `KeptMultiplicity` and `KeptIsSubsequence` |
| `CmdVersion.KeptMembers` | cmd_version.go:39-42 | a dependency is listed exactly when its path starts with the prefix |
| `CmdVersion.KeptMultiplicity` | cmd_version.go:39-42 | a dependency under the prefix is listed as often as it occurs; any other, never |
| `CmdVersion.KeptIsSubsequence` | cmd_version.go:39-42 | the listed dependencies keep their recorded order |
| `CmdVersion.ListDeps` | cmd_version.go:39-52 | the lines are the renderings of the kept dependencies, in order |
| `CmdVersion.Version` | cmd_version.go:18-54 | an unreadable prefix flag returns its error and lists nothing; no build metadata returns no error and lists nothing; otherwise it lists the dependencies under the prefix |
| `CmdVersion.AddVersionFlags` | cmd_version.go:56-64 | adds the `package-prefix` flag, bound to the environment, unless the set already has it |
| `CmdVersion.BoundPackageScopeFlag` | cmd_version.go:59-61 | the `package-prefix` flag after binding; its name, value and usage are stated by `BoundPackageScope` |
| `CmdVersion.PackageScopeEnvName` | cmd_version.go:59-61 | the `package-prefix` flag reads `BASE_PACKAGE_PREFIX` |
| `CmdVersion.BoundPackageScope` | cmd_version.go:59-61 | the bound flag holds a non-empty `BASE_PACKAGE_PREFIX`, else `github.com/SkyMack`, and its usage names the variable |
| `CmdVersion.PackagePrefixDefault` | cmd_version.go:56-64 | once added, `version` reads the prefix as the variable's value if non-empty, else the default |

## Findings

| source | as written | input that shows it | evidently intended | confidence | as-written member | corrected member |
|---|---|---|---|---|---|---|
| cmd_root.go:101 | the underscore warning is given only when the first `_` is at index greater than 0 | flags `_a_b` and `_a-b`: neither is warned about, since the first `_` is at index 0, and both are bound to `<prefix>_A_B` | warn about any `_` in the name, as the comment on line 100 says; then flags with ASCII names that pass never share a variable | medium; not executed | `CmdRoot.LeadingUnderscoreCollision` | `CmdRoot.IntendedCheckPreventsCollisions` |

`CmdRoot.CheckCobraFlags` keeps the check as written. The corrected check is
`CmdRoot.IntendedFlagStyleWarnings`.

## Left out

- Logging: the trace and debug entries and the structured fields are not modelled. Warnings are returned as events.
- `LogFlagError`: it only logs. `Version` returns the flag error without it.
- `New`, the hook registration in `NewUsingCmd`, `AddTopLevelFlags` and `addVersionCmd`: framework wiring. Only the hook order is modelled.
- `rootPersistentPreRunE`: it reads the log-format and log-level flags and calls `configureLogging`. Those flags and `configureLogging` are not part of this model. Hooks are abstract functions over a state.
- `CmdRoot.ChainPreRun`: in Go both hooks receive the same command and arguments. Here the library hook's effect is threaded to the existing hook as a state.
- `version`'s header lines and its `name` parameter: runtime metadata and output I/O. `debug.ReadBuildInfo` becomes an optional `BuildInfo` input, and the printed dependency lines are returned.
- `CmdRoot.EnvNameForFlag`: upper-cases ASCII letters only, because Unicode case mapping is not modelled. Other runes are kept as they are.
- `CmdRoot.EnvNameForFlagInjective` and `CmdRoot.IntendedCheckPreventsCollisions`: proved for ASCII names only. Go upper-cases U+0131 (dotless i) to `I` and U+017F (long s) to `S`, so the flags `ı` and `i`, which both pass the check, read the same variable `<prefix>I`.
- `CmdRoot.CheckCobraFlags`: treats only ASCII `A`–`Z` as letters that are not lower case, because Unicode letter classes are not modelled.
- Strings are sequences of runes. Invalid UTF-8, which Go decodes to U+FFFD, is not modelled.
- Visiting order: the model visits flags in stored order, which is definition order. The flag library visits in that order for sets that do not sort their flags, such as the zero-value sets built at cmd_root.go:25 and cmd_version.go:57. Sets that sort their flags are visited by name. For flags that share no value, only the order of warnings then differs.
- Flags that share one value: not modelled. In the flag library two flags can be defined over the same variable, and then the last of them visited with a non-empty variable decides the value both read. Here each flag record owns its value, so binding changes only the visited flag.
- `Pflag.SetValue`: any value whose type name is `string` is taken to be the flag library's own string value, which accepts any text and never fails. A user-defined value that reports the type `string` may reject or change the text; `CmdRoot.StringFlagTakesVariable` rests on the same assumption.
- Typed value parsers other than strings, flag-name normalisation, shorthands and the `Changed` mark are internals of the flag library. They are not modelled.
- A flag's recorded default (`DefValue`, shown in help) is not modelled. The binder changes only the current value through `Set`.
