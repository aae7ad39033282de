/**
 * The root-command helpers: deriving the environment variable that feeds each
 * flag, binding flags to the environment, the advisory flag-name style check,
 * and the ordering of the persistent pre-run hooks.
 */
module CmdRoot {
  import opened Wrappers
  import opened GoStrings
  import opened Pflag

  /** The prefix under which the library's own flags are read from the environment. */
  const CliBaseFlagPrefix := "BASE_"

  // ---------------------------------------------------------------------------
  // Environment variable names

  /** How one rune of a flag name appears in its environment variable name. */
  function EnvRune(c: char): char
  {
    if c == '-' then '_' else ToUpperRune(c)
  }

  /** The environment variable expected for a flag: the prefix, then the upper-cased name with `-` as `_`. */
  function EnvNameForFlag(prefix: string, flag: Flag): (envName: string)
    ensures |envName| == |prefix| + |flag.name|
    ensures envName[..|prefix|] == prefix
    ensures forall i :: 0 <= i < |flag.name| ==> envName[|prefix| + i] == EnvRune(flag.name[i])
  {
    prefix + ReplaceAll(ToUpper(flag.name), '-', '_')
  }

  /** The environment variable the binder reads for a flag: an override when one is given, else the derived name. */
  function ExpectedEnvName(prefix: string, flag: Flag, overrides: map<string, string>): (envName: string)
    ensures flag.name in overrides ==> envName == overrides[flag.name]
    ensures flag.name !in overrides ==> envName == EnvNameForFlag(prefix, flag)
  {
    if flag.name in overrides then overrides[flag.name] else EnvNameForFlag(prefix, flag)
  }

  /** An override is used verbatim: the prefix plays no part in it. */
  lemma OverrideIgnoresPrefix(prefix1: string, prefix2: string, flag: Flag, overrides: map<string, string>)
    requires flag.name in overrides
    ensures ExpectedEnvName(prefix1, flag, overrides) == ExpectedEnvName(prefix2, flag, overrides) == overrides[flag.name]
  {
  }

  /** A flag name in the intended style: no upper-case letter and no underscore. */
  ghost predicate ConventionalName(name: string)
  {
    forall i :: 0 <= i < |name| ==> !IsNonLowerLetter(name[i]) && name[i] != '_'
  }

  /**
   * A name made of ASCII runes only. Beyond ASCII, Go upper-cases runes such
   * as U+0131 and U+017F to `I` and `S`, which this model does not capture.
   */
  ghost predicate AsciiName(name: string)
  {
    forall i :: 0 <= i < |name| ==> IsAscii(name[i])
  }

  /** On the ASCII runes of conventional names, `EnvRune` is one-to-one. */
  lemma EnvRuneInjective(c: char, d: char)
    requires IsAscii(c) && !IsNonLowerLetter(c) && c != '_'
    requires IsAscii(d) && !IsNonLowerLetter(d) && d != '_'
    requires c != d
    ensures EnvRune(c) != EnvRune(d)
  {
  }

  /** Two distinct conventional ASCII flag names never share a derived environment variable. */
  lemma EnvNameForFlagInjective(prefix: string, a: Flag, b: Flag)
    requires ConventionalName(a.name) && ConventionalName(b.name)
    requires AsciiName(a.name) && AsciiName(b.name)
    requires a.name != b.name
    ensures EnvNameForFlag(prefix, a) != EnvNameForFlag(prefix, b)
  {
    if |a.name| == |b.name| {
      var i :| 0 <= i < |a.name| && a.name[i] != b.name[i];
      EnvRuneInjective(a.name[i], b.name[i]);
      assert EnvNameForFlag(prefix, a)[|prefix| + i] != EnvNameForFlag(prefix, b)[|prefix| + i];
    }
  }

  // ---------------------------------------------------------------------------
  // Binding flags to the environment

  /** `os.Getenv`: an unset variable reads as the empty string. */
  function Getenv(env: map<string, string>, key: string): string
  {
    if key in env then env[key] else ""
  }

  /** The text appended to a flag's usage to name its environment variable. */
  function UsageHint(envName: string): string
  {
    " (${" + envName + "})"
  }

  /** The variable's name reads back whole from the hint, between ` (${` and `})`. */
  lemma UsageHintNamesVariable(envName: string)
    ensures |UsageHint(envName)| == |envName| + 6
    ensures UsageHint(envName)[4..|envName| + 4] == envName
  {
    var hint := UsageHint(envName);
    assert hint == " (${" + envName + "})";
  }

  /** What binding does to one flag. */
  function BindFlag(prefix: string, overrides: map<string, string>, env: map<string, string>,
                    parseOther: (Value, string) -> SetOutcome, flag: Flag): Flag
  {
    var envName := ExpectedEnvName(prefix, flag, overrides);
    var text := Getenv(env, envName);
    var flag' := flag.(usage := flag.usage + UsageHint(envName));
    if text == "" then flag' else flag'.(value := SetValue(parseOther, flag.value, text).value)
  }

  /** The warning logged when an environment value cannot be set into a flag. */
  datatype EnvWarning = EnvWarning(flag: string, envName: string, envValue: string)

  /** `flag`'s variable holds a non-empty value, and `Set` rejects it. */
  predicate Rejects(prefix: string, overrides: map<string, string>, env: map<string, string>,
                    parseOther: (Value, string) -> SetOutcome, flag: Flag)
  {
    var text := Getenv(env, ExpectedEnvName(prefix, flag, overrides));
    text != "" && SetValue(parseOther, flag.value, text).failed
  }

  /** The warning for a rejection of `flag`'s value: the flag, its variable and the value. */
  function WarningFor(prefix: string, overrides: map<string, string>, env: map<string, string>, flag: Flag): EnvWarning
  {
    var envName := ExpectedEnvName(prefix, flag, overrides);
    EnvWarning(flag.name, envName, Getenv(env, envName))
  }

  /** The warnings binding logs, in visiting order: one per flag whose non-empty value `Set` rejected. */
  function EnvWarnings(prefix: string, overrides: map<string, string>, env: map<string, string>,
                       parseOther: (Value, string) -> SetOutcome, flags: seq<Flag>): seq<EnvWarning>
  {
    if flags == [] then []
    else
      var flag := flags[|flags| - 1];
      EnvWarnings(prefix, overrides, env, parseOther, flags[..|flags| - 1])
      + if Rejects(prefix, overrides, env, parseOther, flag) then [WarningFor(prefix, overrides, env, flag)] else []
  }

  /** Visiting one more flag adds that flag's warning, if any, after the earlier ones. */
  lemma EnvWarningsStep(prefix: string, overrides: map<string, string>, env: map<string, string>,
                        parseOther: (Value, string) -> SetOutcome, flags: seq<Flag>, i: nat)
    requires i < |flags|
    ensures EnvWarnings(prefix, overrides, env, parseOther, flags[..i + 1])
         == EnvWarnings(prefix, overrides, env, parseOther, flags[..i])
            + if Rejects(prefix, overrides, env, parseOther, flags[i]) then [WarningFor(prefix, overrides, env, flags[i])] else []
  {
    assert flags[..i + 1][..i] == flags[..i];
  }

  /** Binds one flag: the body of the walk, returning the bound flag and the warning it logs, if any. */
  method BindOne(prefix: string, flag: Flag, overrides: map<string, string>,
                 env: map<string, string>, parseOther: (Value, string) -> SetOutcome)
    returns (bound: Flag, warning: seq<EnvWarning>)
    ensures bound == BindFlag(prefix, overrides, env, parseOther, flag)
    ensures warning == if Rejects(prefix, overrides, env, parseOther, flag) then [WarningFor(prefix, overrides, env, flag)] else []
  {
    var envName: string;
    if flag.name in overrides {
      envName := overrides[flag.name];
    } else {
      envName := EnvNameForFlag(prefix, flag);
    }
    bound := flag.(usage := flag.usage + UsageHint(envName));
    warning := [];
    var text := Getenv(env, envName);
    if text == "" {
      return;
    }
    var outcome := SetValue(parseOther, flag.value, text);
    bound := bound.(value := outcome.value);
    if outcome.failed {
      warning := [EnvWarning(flag.name, envName, text)];
    }
  }

  /**
   * Visits every flag once: appends the environment hint to its usage and, when
   * the variable holds a non-empty value, sets the flag from it. A rejected
   * value is only reported in the returned warnings.
   */
  method SetFlagsFromEnvWithOverrides(prefix: string, flagSet: FlagSet, overrides: map<string, string>,
                                      env: map<string, string>, parseOther: (Value, string) -> SetOutcome)
    returns (warnings: seq<EnvWarning>)
    requires flagSet.Valid()
    modifies flagSet
    ensures flagSet.Valid()
    ensures |flagSet.flags| == |old(flagSet.flags)|
    ensures forall i :: 0 <= i < |flagSet.flags| ==>
      flagSet.flags[i] == BindFlag(prefix, overrides, env, parseOther, old(flagSet.flags)[i])
    ensures warnings == EnvWarnings(prefix, overrides, env, parseOther, old(flagSet.flags))
  {
    warnings := [];
    var n := |flagSet.flags|;
    for i := 0 to n
      invariant |flagSet.flags| == n
      invariant forall k :: 0 <= k < i ==>
        flagSet.flags[k] == BindFlag(prefix, overrides, env, parseOther, old(flagSet.flags)[k])
      invariant forall k :: i <= k < n ==> flagSet.flags[k] == old(flagSet.flags)[k]
      invariant warnings == EnvWarnings(prefix, overrides, env, parseOther, old(flagSet.flags)[..i])
    {
      EnvWarningsStep(prefix, overrides, env, parseOther, old(flagSet.flags), i);
      var flag, warning := BindOne(prefix, flagSet.flags[i], overrides, env, parseOther);
      warnings := warnings + warning;
      flagSet.flags := flagSet.flags[i := flag];
    }
    assert old(flagSet.flags)[..n] == old(flagSet.flags);
    BindingKeepsNamesUnique(prefix, overrides, env, parseOther, old(flagSet.flags), flagSet.flags);
  }

  /** Binding with no overrides: every flag reads the variable `EnvNameForFlag` derives. */
  method SetFlagsFromEnv(prefix: string, flagSet: FlagSet, env: map<string, string>,
                         parseOther: (Value, string) -> SetOutcome)
    returns (warnings: seq<EnvWarning>)
    requires flagSet.Valid()
    modifies flagSet
    ensures flagSet.Valid()
    ensures |flagSet.flags| == |old(flagSet.flags)|
    ensures forall i :: 0 <= i < |flagSet.flags| ==>
      flagSet.flags[i] == BindFlag(prefix, map[], env, parseOther, old(flagSet.flags)[i])
    ensures forall i :: 0 <= i < |flagSet.flags| ==>
      flagSet.flags[i].usage == old(flagSet.flags)[i].usage + UsageHint(EnvNameForFlag(prefix, old(flagSet.flags)[i]))
    ensures warnings == EnvWarnings(prefix, map[], env, parseOther, old(flagSet.flags))
  {
    warnings := SetFlagsFromEnvWithOverrides(prefix, flagSet, map[], env, parseOther);
  }

  /** Binding keeps the flag's name and appends exactly one hint naming the variable read. */
  lemma BindFlagUsage(prefix: string, overrides: map<string, string>, env: map<string, string>,
                      parseOther: (Value, string) -> SetOutcome, flag: Flag)
    ensures BindFlag(prefix, overrides, env, parseOther, flag).name == flag.name
    ensures BindFlag(prefix, overrides, env, parseOther, flag).usage
         == flag.usage + " (${" + ExpectedEnvName(prefix, flag, overrides) + "})"
  {
  }

  /** An unset or empty variable leaves the flag's value as it was. */
  lemma UnsetVariableKeepsValue(prefix: string, overrides: map<string, string>, env: map<string, string>,
                                parseOther: (Value, string) -> SetOutcome, flag: Flag)
    requires ExpectedEnvName(prefix, flag, overrides) !in env || env[ExpectedEnvName(prefix, flag, overrides)] == ""
    ensures BindFlag(prefix, overrides, env, parseOther, flag).value == flag.value
  {
  }

  /** A string flag takes a non-empty environment value as it stands. */
  lemma StringFlagTakesVariable(prefix: string, overrides: map<string, string>, env: map<string, string>,
                                parseOther: (Value, string) -> SetOutcome, flag: Flag)
    requires flag.value.typ == StringType
    requires ExpectedEnvName(prefix, flag, overrides) in env && env[ExpectedEnvName(prefix, flag, overrides)] != ""
    ensures BindFlag(prefix, overrides, env, parseOther, flag).value
         == Value(StringType, env[ExpectedEnvName(prefix, flag, overrides)])
  {
  }

  /** A flag whose value `Set` rejected keeps its old value, provided the parser keeps values on error. */
  lemma RejectedValueKept(prefix: string, overrides: map<string, string>, env: map<string, string>,
                          parseOther: (Value, string) -> SetOutcome, flag: Flag)
    requires KeepsValueOnError(parseOther)
    requires SetValue(parseOther, flag.value, Getenv(env, ExpectedEnvName(prefix, flag, overrides))).failed
    ensures BindFlag(prefix, overrides, env, parseOther, flag).value == flag.value
  {
  }

  /** The positions of the elements of `xs` that satisfy `p`, in increasing order. */
  ghost function Positions<T>(xs: seq<T>, p: T -> bool): seq<nat>
  {
    if xs == [] then [] else Positions(xs[..|xs| - 1], p) + if p(xs[|xs| - 1]) then [|xs| - 1] else []
  }

  /** Positions are in range and increasing. */
  lemma {:induction false} PositionsOrdered<T>(xs: seq<T>, p: T -> bool)
    ensures |Positions(xs, p)| <= |xs|
    ensures forall k :: 0 <= k < |Positions(xs, p)| ==> Positions(xs, p)[k] < |xs|
    ensures forall k, l :: 0 <= k < l < |Positions(xs, p)| ==> Positions(xs, p)[k] < Positions(xs, p)[l]
  {
    if xs != [] {
      PositionsOrdered(xs[..|xs| - 1], p);
    }
  }

  /** Position `i` is listed exactly when its element satisfies `p`. */
  lemma {:induction false} PositionsAt<T>(xs: seq<T>, p: T -> bool, i: nat)
    requires i < |xs|
    ensures p(xs[i]) <==> i in Positions(xs, p)
  {
    var init := xs[..|xs| - 1];
    PositionsOrdered(init, p);
    assert |init| !in Positions(init, p);
    if i < |init| {
      PositionsAt(init, p, i);
      assert xs[i] == init[i];
    }
  }

  /** The positions of the flags whose value `Set` rejects, in increasing order. */
  ghost function RejectedIndices(prefix: string, overrides: map<string, string>, env: map<string, string>,
                                 parseOther: (Value, string) -> SetOutcome, flags: seq<Flag>): seq<nat>
  {
    Positions(flags, (f: Flag) => Rejects(prefix, overrides, env, parseOther, f))
  }

  /** The rejected positions are in range and increasing. */
  lemma RejectedIndicesOrdered(prefix: string, overrides: map<string, string>, env: map<string, string>,
                               parseOther: (Value, string) -> SetOutcome, flags: seq<Flag>)
    ensures var idx := RejectedIndices(prefix, overrides, env, parseOther, flags);
      && |idx| <= |flags|
      && (forall k :: 0 <= k < |idx| ==> idx[k] < |flags|)
      && (forall k, l :: 0 <= k < l < |idx| ==> idx[k] < idx[l])
  {
    PositionsOrdered(flags, (f: Flag) => Rejects(prefix, overrides, env, parseOther, f));
  }

  /** Position `i` is among the rejected ones exactly when `Set` rejects that flag's non-empty value. */
  lemma RejectedAt(prefix: string, overrides: map<string, string>, env: map<string, string>,
                   parseOther: (Value, string) -> SetOutcome, flags: seq<Flag>, i: nat)
    requires i < |flags|
    ensures Rejects(prefix, overrides, env, parseOther, flags[i]) <==> i in RejectedIndices(prefix, overrides, env, parseOther, flags)
  {
    PositionsAt(flags, (f: Flag) => Rejects(prefix, overrides, env, parseOther, f), i);
  }

  /** A position is among the rejected ones exactly when `Set` rejects that flag's non-empty value. */
  lemma RejectedIndicesExact(prefix: string, overrides: map<string, string>, env: map<string, string>,
                             parseOther: (Value, string) -> SetOutcome, flags: seq<Flag>)
    ensures forall i :: 0 <= i < |flags| ==>
      (Rejects(prefix, overrides, env, parseOther, flags[i]) <==> i in RejectedIndices(prefix, overrides, env, parseOther, flags))
  {
    forall i | 0 <= i < |flags|
      ensures Rejects(prefix, overrides, env, parseOther, flags[i]) <==> i in RejectedIndices(prefix, overrides, env, parseOther, flags)
    {
      RejectedAt(prefix, overrides, env, parseOther, flags, i);
    }
  }

  /** The k-th warning is the warning for the k-th rejected flag. */
  lemma {:induction false} WarningsFollowIndices(prefix: string, overrides: map<string, string>,
                                                 env: map<string, string>,
                                                 parseOther: (Value, string) -> SetOutcome, flags: seq<Flag>)
    ensures var w := EnvWarnings(prefix, overrides, env, parseOther, flags);
      var idx := RejectedIndices(prefix, overrides, env, parseOther, flags);
      && |w| == |idx|
      && (forall k :: 0 <= k < |idx| ==> idx[k] < |flags| && w[k] == WarningFor(prefix, overrides, env, flags[idx[k]]))
  {
    if flags != [] {
      var init := flags[..|flags| - 1];
      WarningsFollowIndices(prefix, overrides, env, parseOther, init);
      var w0 := EnvWarnings(prefix, overrides, env, parseOther, init);
      var idx0 := RejectedIndices(prefix, overrides, env, parseOther, init);
      var w := EnvWarnings(prefix, overrides, env, parseOther, flags);
      var idx := RejectedIndices(prefix, overrides, env, parseOther, flags);
      forall k | 0 <= k < |idx|
        ensures idx[k] < |flags| && w[k] == WarningFor(prefix, overrides, env, flags[idx[k]])
      {
        if k < |idx0| {
          assert w[k] == w0[k] && idx[k] == idx0[k];
          assert flags[idx0[k]] == init[idx0[k]];
        }
      }
    }
  }

  /**
   * The warnings correspond one to one, in visiting order, to the flags whose
   * non-empty value `Set` rejects: the k-th warning reports the k-th such flag,
   * and every such flag is reported.
   */
  lemma WarningsAreRejections(prefix: string, overrides: map<string, string>, env: map<string, string>,
                              parseOther: (Value, string) -> SetOutcome, flags: seq<Flag>)
    ensures var w := EnvWarnings(prefix, overrides, env, parseOther, flags);
      var idx := RejectedIndices(prefix, overrides, env, parseOther, flags);
      && |w| == |idx| <= |flags|
      && (forall k, l :: 0 <= k < l < |idx| ==> idx[k] < idx[l])
      && (forall k :: 0 <= k < |w| ==>
            idx[k] < |flags| && Rejects(prefix, overrides, env, parseOther, flags[idx[k]])
            && w[k] == WarningFor(prefix, overrides, env, flags[idx[k]]))
      && (forall i :: 0 <= i < |flags| && Rejects(prefix, overrides, env, parseOther, flags[i]) ==> i in idx)
  {
    RejectedIndicesOrdered(prefix, overrides, env, parseOther, flags);
    RejectedIndicesExact(prefix, overrides, env, parseOther, flags);
    WarningsFollowIndices(prefix, overrides, env, parseOther, flags);
  }

  /** Binding a second time appends a second hint: the usage is not protected against repeated calls. */
  lemma BindingTwiceAppendsTwoHints(prefix: string, overrides: map<string, string>, env: map<string, string>,
                                    parseOther: (Value, string) -> SetOutcome, flag: Flag)
    ensures var hint := UsageHint(ExpectedEnvName(prefix, flag, overrides));
      BindFlag(prefix, overrides, env, parseOther, BindFlag(prefix, overrides, env, parseOther, flag)).usage
      == flag.usage + hint + hint
  {
  }

  /** Binding keeps the set's names, so flag names stay distinct. */
  lemma {:induction false} BindingKeepsNamesUnique(prefix: string, overrides: map<string, string>,
                                                   env: map<string, string>,
                                                   parseOther: (Value, string) -> SetOutcome,
                                                   before: seq<Flag>, after: seq<Flag>)
    requires UniqueNames(before)
    requires |after| == |before|
    requires forall i :: 0 <= i < |after| ==> after[i] == BindFlag(prefix, overrides, env, parseOther, before[i])
    ensures UniqueNames(after)
  {
    forall i, j | 0 <= i < j < |after|
      ensures after[i].name != after[j].name
    {
      assert after[i].name == before[i].name;
      assert after[j].name == before[j].name;
    }
  }

  // ---------------------------------------------------------------------------
  // Flag-name style check

  /** Which naming convention a flag breaks. */
  datatype Violation = NotLowerCase | UnderscoreNotHyphen

  /** An advisory warning about one flag's name. */
  datatype StyleWarning = StyleWarning(flag: string, violation: Violation)

  /** One warning per letter in `runes` that is not lower case, in order. */
  function CaseWarnings(flagName: string, runes: string): (w: seq<StyleWarning>)
    ensures forall k :: 0 <= k < |w| ==> w[k] == StyleWarning(flagName, NotLowerCase)
    ensures |w| <= |runes|
  {
    if runes == [] then []
    else CaseWarnings(flagName, runes[..|runes| - 1])
         + if IsNonLowerLetter(runes[|runes| - 1]) then [StyleWarning(flagName, NotLowerCase)] else []
  }

  /** The warnings for one flag name: case warnings, then an underscore warning when the first `_` is past index 0. */
  function FlagStyleWarnings(name: string): seq<StyleWarning>
  {
    CaseWarnings(name, name) + if Index(name, '_') > 0 then [StyleWarning(name, UnderscoreNotHyphen)] else []
  }

  /** The warnings for a whole flag set, flag by flag. */
  function StyleReport(flags: seq<Flag>): seq<StyleWarning>
  {
    if flags == [] then [] else StyleReport(flags[..|flags| - 1]) + FlagStyleWarnings(flags[|flags| - 1].name)
  }

  /** Checks one flag name: a warning per letter that is not lower case, then the underscore rule. */
  method CheckFlagName(name: string) returns (warnings: seq<StyleWarning>)
    ensures warnings == FlagStyleWarnings(name)
  {
    warnings := [];
    for j := 0 to |name|
      invariant warnings == CaseWarnings(name, name[..j])
    {
      assert name[..j + 1][..j] == name[..j];
      if IsNonLowerLetter(name[j]) {
        warnings := warnings + [StyleWarning(name, NotLowerCase)];
      }
    }
    assert name[..|name|] == name;
    if Index(name, '_') > 0 {
      warnings := warnings + [StyleWarning(name, UnderscoreNotHyphen)];
    }
  }

  /** Checks every flag name against the conventions; reports, never changes a flag, never fails. */
  method CheckCobraFlags(flagSet: FlagSet) returns (warnings: seq<StyleWarning>)
    ensures warnings == StyleReport(flagSet.flags)
  {
    warnings := [];
    var flags := flagSet.flags;
    for i := 0 to |flags|
      invariant warnings == StyleReport(flags[..i])
    {
      assert flags[..i + 1][..i] == flags[..i];
      var flagWarnings := CheckFlagName(flags[i].name);
      warnings := warnings + flagWarnings;
    }
    assert flags[..|flags|] == flags;
  }

  /** Case warnings split along the runes: each offending letter contributes exactly one warning. */
  lemma {:induction false} CaseWarningsAppend(flagName: string, a: string, b: string)
    ensures CaseWarnings(flagName, a + b) == CaseWarnings(flagName, a) + CaseWarnings(flagName, b)
  {
    if b != [] {
      assert (a + b)[..|a + b| - 1] == a + b[..|b| - 1];
      CaseWarningsAppend(flagName, a, b[..|b| - 1]);
    } else {
      assert a + b == a;
    }
  }

  /** No case warning exactly when no letter of the name is upper case. */
  lemma {:induction false} NoCaseWarningsIffLowerCase(flagName: string, runes: string)
    ensures CaseWarnings(flagName, runes) == [] <==> forall i :: 0 <= i < |runes| ==> !IsNonLowerLetter(runes[i])
  {
    if runes != [] {
      var init := runes[..|runes| - 1];
      NoCaseWarningsIffLowerCase(flagName, init);
      if forall i :: 0 <= i < |runes| ==> !IsNonLowerLetter(runes[i]) {
        forall i | 0 <= i < |init| ensures !IsNonLowerLetter(init[i]) {
          assert init[i] == runes[i];
        }
      } else {
        var i :| 0 <= i < |runes| && IsNonLowerLetter(runes[i]);
        if i < |init| {
          assert init[i] == runes[i];
        }
      }
    }
  }

  /** The underscore warning is given exactly when the name holds `_` but does not begin with it. */
  lemma UnderscoreWarningIff(name: string)
    ensures StyleWarning(name, UnderscoreNotHyphen) in FlagStyleWarnings(name) <==> '_' in name && name[0] != '_'
  {
    if '_' in name && name[0] != '_' {
      assert Index(name, '_') > 0;
      assert FlagStyleWarnings(name)[|CaseWarnings(name, name)|] == StyleWarning(name, UnderscoreNotHyphen);
    }
  }

  /**
   * The style check as evidently intended: an underscore anywhere in the name,
   * including at its start, is reported.
   */
  function IntendedFlagStyleWarnings(name: string): seq<StyleWarning>
  {
    CaseWarnings(name, name) + if Index(name, '_') >= 0 then [StyleWarning(name, UnderscoreNotHyphen)] else []
  }

  /** The intended check is silent exactly on conventional names. */
  lemma IntendedCheckSilentIffConventional(name: string)
    ensures IntendedFlagStyleWarnings(name) == [] <==> ConventionalName(name)
  {
    NoCaseWarningsIffLowerCase(name, name);
  }

  /** With the intended check, two ASCII-named flags that pass it never read the same environment variable. */
  lemma IntendedCheckPreventsCollisions(prefix: string, a: Flag, b: Flag)
    requires IntendedFlagStyleWarnings(a.name) == [] && IntendedFlagStyleWarnings(b.name) == []
    requires AsciiName(a.name) && AsciiName(b.name)
    requires a.name != b.name
    ensures EnvNameForFlag(prefix, a) != EnvNameForFlag(prefix, b)
  {
    IntendedCheckSilentIffConventional(a.name);
    IntendedCheckSilentIffConventional(b.name);
    EnvNameForFlagInjective(prefix, a, b);
  }

  /** A `-` and a `_` at the same place in a flag name give the same environment variable. */
  lemma HyphenLikeUnderscore(prefix: string, a: Flag, b: Flag, k: nat)
    requires k < |a.name| && a.name[k] == '_'
    requires b.name == a.name[..k] + "-" + a.name[k + 1..]
    ensures EnvNameForFlag(prefix, a) == EnvNameForFlag(prefix, b)
  {
    var x, y := EnvNameForFlag(prefix, a), EnvNameForFlag(prefix, b);
    var xs, ys := x[|prefix|..], y[|prefix|..];
    forall j | 0 <= j < |a.name|
      ensures xs[j] == ys[j]
    {
      assert xs[j] == x[|prefix| + j] && ys[j] == y[|prefix| + j];
      if j != k {
        assert b.name[j] == a.name[j];
      }
    }
    assert xs == ys;
    assert x == x[..|prefix|] + x[|prefix|..];
    assert y == y[..|prefix|] + y[|prefix|..];
  }

  /** A name that starts with `_` and has no upper-case letter passes the check as written, though it holds `_`. */
  lemma LeadingUnderscorePasses(name: string)
    requires |name| > 0 && name[0] == '_'
    requires forall i :: 0 <= i < |name| ==> !IsNonLowerLetter(name[i])
    ensures FlagStyleWarnings(name) == []
    ensures IntendedFlagStyleWarnings(name) != []
  {
    NoCaseWarningsIffLowerCase(name, name);
  }

  /**
   * The check as written lets a leading underscore through, and with it every
   * later one: `_a_b` and `_a-b` both pass it silently, yet both are bound to
   * the same environment variable.
   */
  lemma LeadingUnderscoreCollision(prefix: string, a: Flag, b: Flag)
    requires a.name == "_a_b" && b.name == "_a-b"
    ensures FlagStyleWarnings(a.name) == [] && FlagStyleWarnings(b.name) == []
    ensures EnvNameForFlag(prefix, a) == EnvNameForFlag(prefix, b)
    ensures IntendedFlagStyleWarnings(a.name) != [] && IntendedFlagStyleWarnings(b.name) != []
  {
    forall i | 0 <= i < 4
      ensures !IsNonLowerLetter(a.name[i]) && !IsNonLowerLetter(b.name[i])
    {
      assert i == 0 || i == 1 || i == 2 || i == 3;
    }
    LeadingUnderscorePasses(a.name);
    LeadingUnderscorePasses(b.name);
    assert b.name == a.name[..2] + "-" + a.name[3..];
    HyphenLikeUnderscore(prefix, a, b, 2);
  }

  // ---------------------------------------------------------------------------
  // Persistent pre-run hooks

  /**
   * The pre-run hook installed on the root command: the library's hook alone,
   * or the library's hook followed by the command's existing one. `S` is the
   * state a hook can change (the logging set-up), `E` its error.
   */
  function ChainPreRun<S, E>(root: S -> Result<S, E>, existing: Option<S -> Result<S, E>>): (hook: S -> Result<S, E>)
    ensures existing.None? ==> hook == root
  {
    match existing
    case None => root
    case Some(next) =>
      (s: S) => match root(s)
        case Failure(e) => Failure(e)
        case Success(s') => next(s')
  }

  /** When the library's hook fails, its error is returned and the existing hook does not run. */
  lemma ChainStopsOnRootFailure<S, E>(root: S -> Result<S, E>, next: S -> Result<S, E>, s: S)
    requires root(s).Failure?
    ensures ChainPreRun(root, Some(next))(s) == Failure(root(s).error)
    ensures forall other: S -> Result<S, E> :: ChainPreRun(root, Some(other))(s) == ChainPreRun(root, Some(next))(s)
  {
  }

  /** When the library's hook succeeds, the existing hook runs after it and its result is the outcome. */
  lemma ChainRunsExistingAfterRoot<S, E>(root: S -> Result<S, E>, next: S -> Result<S, E>, s: S)
    requires root(s).Success?
    ensures ChainPreRun(root, Some(next))(s) == next(root(s).value)
  {
  }
}
