/**
 * The `version` subcommand: the dependency listing it prints (filtered by a
 * package prefix, replaced modules struck through), its early returns, and
 * the `package-prefix` flag it reads, with its default and environment binding.
 */
module CmdVersion {
  import opened Wrappers
  import opened GoStrings
  import opened Pflag
  import CmdRoot

  const FlagPackageScopeName := "package-prefix"
  const DefaultPackagePrefix := "github.com/SkyMack"
  const PackageScopeUsage := "only introspect packages under this prefix"

  /** A module of the build, as the build metadata records it; `replace` is its replacement, if any. */
  datatype Module = Module(path: string, version: string, replace: Option<Module>)

  /** The build metadata the listing reads: the dependency modules, in recorded order. */
  datatype BuildInfo = BuildInfo(deps: seq<Module>)

  // ---------------------------------------------------------------------------
  // Striking text through

  /** `text` struck through: U+0336 before every rune. */
  function Struck(text: string): (struck: string)
    ensures |struck| == 2 * |text|
    ensures forall i :: 0 <= i < |text| ==> struck[2 * i] == LongStroke && struck[2 * i + 1] == text[i]
  {
    if text == [] then [] else Struck(text[..|text| - 1]) + [LongStroke, text[|text| - 1]]
  }

  /** Drops the overlay runes again: the rune after each even position. */
  function Unstrike(struck: string): (text: string)
    ensures |text| == |struck| / 2
  {
    seq(|struck| / 2, i requires 0 <= i < |struck| / 2 => struck[2 * i + 1])
  }

  /** Striking through loses nothing: the original text is recovered. */
  lemma UnstrikeStruck(text: string)
    ensures Unstrike(Struck(text)) == text
  {
  }

  /** Builds the struck-through text rune by rune. */
  method StrikeThrough(text: string) returns (struck: string)
    ensures struck == Struck(text)
  {
    struck := "";
    for i := 0 to |text|
      invariant struck == Struck(text[..i])
    {
      assert text[..i + 1][..i] == text[..i];
      struck := struck + [LongStroke] + [text[i]];
    }
    assert text[..|text|] == text;
  }

  // ---------------------------------------------------------------------------
  // Rendering and filtering dependencies

  /** `path version`. */
  function DepText(m: Module): string
  {
    m.path + " " + m.version
  }

  /** The line printed for one dependency. */
  function RenderLine(m: Module): string
  {
    "  " + match m.replace
      case None => DepText(m)
      case Some(r) => Struck(DepText(m)) + [LongStroke] + "  => " + r.path
  }

  /** An unreplaced dependency is listed as `path version`, indented by two spaces. */
  lemma PlainLine(m: Module)
    requires m.replace.None?
    ensures RenderLine(m) == "  " + m.path + " " + m.version
  {
  }

  /**
   * A replaced dependency's line is the indent, the struck-through `path version`
   * (from which the text can be read back), a lone overlay rune, and the
   * arrow to the replacement's path.
   */
  lemma ReplacedLine(m: Module)
    requires m.replace.Some?
    ensures var n := 2 + 2 * |DepText(m)|;
      && |RenderLine(m)| == n + 6 + |m.replace.value.path|
      && RenderLine(m)[..2] == "  "
      && RenderLine(m)[2..n] == Struck(DepText(m))
      && Unstrike(RenderLine(m)[2..n]) == DepText(m)
      && RenderLine(m)[n..] == [LongStroke] + "  => " + m.replace.value.path
  {
    var n := 2 + 2 * |DepText(m)|;
    var line := RenderLine(m);
    var struck := Struck(DepText(m));
    assert line == "  " + struck + ([LongStroke] + "  => " + m.replace.value.path);
    assert line[2..n] == struck;
    UnstrikeStruck(DepText(m));
  }

  /** Renders one dependency, building the struck-through text with the rune loop. */
  method RenderDep(pkg: Module) returns (line: string)
    ensures line == RenderLine(pkg)
  {
    var output := pkg.path + " " + pkg.version;
    if pkg.replace.Some? {
      var struckthrough := StrikeThrough(output);
      output := struckthrough + [LongStroke] + "  => " + pkg.replace.value.path;
    }
    line := "  " + output;
  }

  /** The dependencies whose path starts with `prefix`, in their recorded order. */
  function Kept(prefix: string, deps: seq<Module>): (kept: seq<Module>)
    ensures |kept| <= |deps|
  {
    if deps == [] then []
    else Kept(prefix, deps[..|deps| - 1])
         + if HasPrefix(deps[|deps| - 1].path, prefix) then [deps[|deps| - 1]] else []
  }

  /** The lines printed for a list of dependencies, one per dependency. */
  function RenderAll(deps: seq<Module>): (lines: seq<string>)
    ensures |lines| == |deps|
    ensures forall i :: 0 <= i < |deps| ==> lines[i] == RenderLine(deps[i])
  {
    seq(|deps|, i requires 0 <= i < |deps| => RenderLine(deps[i]))
  }

  /** `a` is `b` with some elements left out, the rest in the same order. */
  ghost predicate IsSubsequence(a: seq<Module>, b: seq<Module>)
    decreases |b|
  {
    if a == [] then true
    else if b == [] then false
    else (a[|a| - 1] == b[|b| - 1] && IsSubsequence(a[..|a| - 1], b[..|b| - 1]))
         || IsSubsequence(a, b[..|b| - 1])
  }

  /** A dependency is listed exactly when it is among the dependencies and its path has the prefix. */
  lemma {:induction false} KeptMembers(prefix: string, deps: seq<Module>, m: Module)
    ensures m in Kept(prefix, deps) <==> m in deps && HasPrefix(m.path, prefix)
  {
    if deps != [] {
      var init := deps[..|deps| - 1];
      KeptMembers(prefix, init, m);
      assert deps == init + [deps[|deps| - 1]];
    }
  }

  /** Filtering keeps every occurrence of a listed dependency and drops every occurrence of the others. */
  lemma {:induction false} KeptMultiplicity(prefix: string, deps: seq<Module>, m: Module)
    ensures multiset(Kept(prefix, deps))[m] == if HasPrefix(m.path, prefix) then multiset(deps)[m] else 0
  {
    if deps != [] {
      var init := deps[..|deps| - 1];
      KeptMultiplicity(prefix, init, m);
      assert deps == init + [deps[|deps| - 1]];
    }
  }

  /** Filtering keeps the recorded order. */
  lemma {:induction false} KeptIsSubsequence(prefix: string, deps: seq<Module>)
    ensures IsSubsequence(Kept(prefix, deps), deps)
  {
    if deps != [] {
      var init := deps[..|deps| - 1];
      KeptIsSubsequence(prefix, init);
      var kept := Kept(prefix, deps);
      if HasPrefix(deps[|deps| - 1].path, prefix) {
        assert kept[..|kept| - 1] == Kept(prefix, init);
      } else {
        assert kept == Kept(prefix, init);
      }
    }
  }

  /** Walks the dependencies, skipping those outside the prefix and rendering the rest. */
  method ListDeps(packPrefix: string, deps: seq<Module>) returns (lines: seq<string>)
    ensures lines == RenderAll(Kept(packPrefix, deps))
  {
    lines := [];
    for i := 0 to |deps|
      invariant lines == RenderAll(Kept(packPrefix, deps[..i]))
    {
      assert deps[..i + 1][..i] == deps[..i];
      var pkg := deps[i];
      if !HasPrefix(pkg.path, packPrefix) {
        continue;
      }
      var line := RenderDep(pkg);
      lines := lines + [line];
    }
    assert deps[..|deps|] == deps;
  }

  /**
   * The `version` command, as far as its dependency listing: fails when the
   * prefix flag cannot be read, lists nothing when there is no build
   * metadata, and otherwise lists the dependencies under the prefix.
   */
  method Version(flagSet: FlagSet, buildInfo: Option<BuildInfo>) returns (err: Option<FlagError>, lines: seq<string>)
    ensures GetString(flagSet.flags, FlagPackageScopeName).Failure? ==>
      err == Some(GetString(flagSet.flags, FlagPackageScopeName).error) && lines == []
    ensures GetString(flagSet.flags, FlagPackageScopeName).Success? ==> err == None
    ensures GetString(flagSet.flags, FlagPackageScopeName).Success? && buildInfo.None? ==> lines == []
    ensures GetString(flagSet.flags, FlagPackageScopeName).Success? && buildInfo.Some? ==>
      lines == RenderAll(Kept(GetString(flagSet.flags, FlagPackageScopeName).value, buildInfo.value.deps))
  {
    var packPrefix := GetString(flagSet.flags, FlagPackageScopeName);
    if packPrefix.Failure? {
      return Some(packPrefix.error), [];
    }
    if buildInfo.None? {
      return None, [];
    }
    lines := ListDeps(packPrefix.value, buildInfo.value.deps);
    err := None;
  }

  // ---------------------------------------------------------------------------
  // The package-prefix flag

  /** The `package-prefix` flag as declared, before binding. */
  function PackageScopeFlag(): Flag
  {
    Flag(FlagPackageScopeName, Value(StringType, DefaultPackagePrefix), PackageScopeUsage)
  }

  /** The `package-prefix` flag after binding with the library's prefix. */
  function BoundPackageScopeFlag(env: map<string, string>, parseOther: (Value, string) -> SetOutcome): Flag
  {
    CmdRoot.BindFlag(CmdRoot.CliBaseFlagPrefix, map[], env, parseOther, PackageScopeFlag())
  }

  /** Declares the `package-prefix` flag, binds it to the environment and adds it to `flags`. */
  method AddVersionFlags(flags: FlagSet, env: map<string, string>, parseOther: (Value, string) -> SetOutcome)
    requires flags.Valid()
    modifies flags
    ensures flags.Valid()
    ensures flags.flags == Merge(old(flags.flags), [BoundPackageScopeFlag(env, parseOther)])
  {
    var verFlags := new FlagSet([PackageScopeFlag()]);
    var _ := CmdRoot.SetFlagsFromEnv(CmdRoot.CliBaseFlagPrefix, verFlags, env, parseOther);
    assert verFlags.flags == [BoundPackageScopeFlag(env, parseOther)];
    flags.AddFlagSet(verFlags);
  }

  /** The flag reads variable `BASE_PACKAGE_PREFIX`. */
  lemma PackageScopeEnvName()
    ensures CmdRoot.EnvNameForFlag(CmdRoot.CliBaseFlagPrefix, PackageScopeFlag()) == "BASE_PACKAGE_PREFIX"
  {
    calc {
      CmdRoot.EnvNameForFlag(CmdRoot.CliBaseFlagPrefix, PackageScopeFlag());
      "BASE_" + GoStrings.ReplaceAll(GoStrings.ToUpper(FlagPackageScopeName), '-', '_');
      { UpperPackageScope(); }
      "BASE_" + GoStrings.ReplaceAll("PACKAGE-PREFIX", '-', '_');
      { ReplacedPackageScope(); }
      "BASE_" + "PACKAGE_PREFIX";
      "BASE_PACKAGE_PREFIX";
    }
  }

  /** The flag's name upper-cased, rune by rune. */
  lemma UpperPackageScope()
    ensures GoStrings.ToUpper(FlagPackageScopeName) == "PACKAGE-PREFIX"
  {
  }

  /** The upper-cased name with its hyphen turned into an underscore. */
  lemma ReplacedPackageScope()
    ensures GoStrings.ReplaceAll("PACKAGE-PREFIX", '-', '_') == "PACKAGE_PREFIX"
  {
  }

  /** The bound flag keeps its name, takes a non-empty `BASE_PACKAGE_PREFIX` as its value, and names that variable in its usage. */
  lemma BoundPackageScope(env: map<string, string>, parseOther: (Value, string) -> SetOutcome)
    ensures var fromEnv := CmdRoot.Getenv(env, "BASE_PACKAGE_PREFIX");
      BoundPackageScopeFlag(env, parseOther)
      == Flag(FlagPackageScopeName,
              Value(StringType, if fromEnv != "" then fromEnv else DefaultPackagePrefix),
              PackageScopeUsage + " (${BASE_PACKAGE_PREFIX})")
  {
    PackageScopeEnvName();
    assert CmdRoot.ExpectedEnvName(CmdRoot.CliBaseFlagPrefix, PackageScopeFlag(), map[]) == "BASE_PACKAGE_PREFIX";
  }

  /**
   * Once the version flags are added to a set without a `package-prefix` flag,
   * the prefix reads as `BASE_PACKAGE_PREFIX` when that is non-empty, and as
   * the default otherwise.
   */
  lemma PackagePrefixDefault(flags: seq<Flag>, env: map<string, string>, parseOther: (Value, string) -> SetOutcome)
    requires Lookup(flags, FlagPackageScopeName).None?
    ensures var fromEnv := CmdRoot.Getenv(env, "BASE_PACKAGE_PREFIX");
      GetString(Merge(flags, [BoundPackageScopeFlag(env, parseOther)]), FlagPackageScopeName)
      == Success(if fromEnv != "" then fromEnv else DefaultPackagePrefix)
  {
    var bound := BoundPackageScopeFlag(env, parseOther);
    BoundPackageScope(env, parseOther);
    MergeAbsent(flags, bound);
    var found := Lookup(flags + [bound], FlagPackageScopeName);
    assert (flags + [bound])[|flags|] == bound;
    assert found.value == bound;
  }
}
