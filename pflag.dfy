/**
 * The part of the flag library that the command helpers rely on: a flag's
 * value seen through its type name and textual form, a flag record, and a
 * flag set that owns its flags and is updated in place. Only the behaviour
 * the helpers observe is modelled (lookup by name, reading a string flag,
 * merging one set into another, and setting a value from text).
 */
module Pflag {
  import opened Wrappers

  /** A flag value as the library exposes it: `Type()` and `String()`. */
  datatype Value = Value(typ: string, text: string)

  /** A flag: its name, its current value and its usage (help) text. */
  datatype Flag = Flag(name: string, value: Value, usage: string)

  /** What `Value.Set` leaves behind: the value afterwards, and whether `Set` returned an error. */
  datatype SetOutcome = SetOutcome(value: Value, failed: bool)

  /** Why reading a flag failed. */
  datatype FlagError = NotDefined(name: string) | WrongType(name: string, typ: string)

  const StringType := "string"

  /**
   * `Value.Set(text)`. A value whose type name is `string` is taken to be the
   * flag library's own string value, which accepts any text; the parsers of
   * the other value types are not modelled and are supplied as `parseOther`.
   */
  function SetValue(parseOther: (Value, string) -> SetOutcome, v: Value, text: string): SetOutcome
  {
    if v.typ == StringType then SetOutcome(Value(StringType, text), false) else parseOther(v, text)
  }

  /** A parser that leaves the value as it was whenever it reports an error. */
  ghost predicate KeepsValueOnError(parseOther: (Value, string) -> SetOutcome)
  {
    forall v, text :: parseOther(v, text).failed ==> parseOther(v, text).value == v
  }

  /** Flag names within one set are distinct. */
  ghost predicate UniqueNames(flags: seq<Flag>)
  {
    forall i, j :: 0 <= i < j < |flags| ==> flags[i].name != flags[j].name
  }

  /** `FlagSet.Lookup`: the flag with the given name, if the set holds one. */
  function Lookup(flags: seq<Flag>, name: string): (r: Option<Flag>)
    ensures r.None? <==> forall i :: 0 <= i < |flags| ==> flags[i].name != name
    ensures r.Some? ==> r.value in flags && r.value.name == name
  {
    if flags == [] then None
    else if flags[0].name == name then Some(flags[0])
    else Lookup(flags[1..], name)
  }

  /** `FlagSet.GetString`: the text of a string flag, or why it cannot be read. */
  function GetString(flags: seq<Flag>, name: string): (r: Result<string, FlagError>)
    ensures r.Success? <==> Lookup(flags, name).Some? && Lookup(flags, name).value.value.typ == StringType
    ensures r.Success? ==> r.value == Lookup(flags, name).value.value.text
    ensures Lookup(flags, name).None? ==> r == Failure(NotDefined(name))
  {
    match Lookup(flags, name)
    case None => Failure(NotDefined(name))
    case Some(f) =>
      if f.value.typ != StringType then Failure(WrongType(name, f.value.typ)) else Success(f.value.text)
  }

  /**
   * `FlagSet.AddFlagSet` as a function: each incoming flag, in order, is
   * appended unless a flag of that name is already present.
   */
  function Merge(base: seq<Flag>, incoming: seq<Flag>): seq<Flag>
  {
    if incoming == [] then base
    else
      var merged := Merge(base, incoming[..|incoming| - 1]);
      var f := incoming[|incoming| - 1];
      if Lookup(merged, f.name).None? then merged + [f] else merged
  }

  /** Merging never drops or changes a flag already present, and keeps names distinct. */
  lemma {:induction false} MergeKeepsBase(base: seq<Flag>, incoming: seq<Flag>)
    requires UniqueNames(base)
    ensures |base| <= |Merge(base, incoming)|
    ensures Merge(base, incoming)[..|base|] == base
    ensures UniqueNames(Merge(base, incoming))
  {
    if incoming != [] {
      MergeKeepsBase(base, incoming[..|incoming| - 1]);
    }
  }

  /** After merging, every incoming name is present. */
  lemma {:induction false} MergeCoversIncoming(base: seq<Flag>, incoming: seq<Flag>, name: string)
    requires exists i :: 0 <= i < |incoming| && incoming[i].name == name
    ensures Lookup(Merge(base, incoming), name).Some?
  {
    var k := |incoming| - 1;
    var m := Merge(base, incoming[..k]);
    if incoming[k].name != name {
      var i :| 0 <= i < |incoming| && incoming[i].name == name;
      assert incoming[..k][i] == incoming[i];
      MergeCoversIncoming(base, incoming[..k], name);
      var j :| 0 <= j < |m| && m[j].name == name;
      assert Merge(base, incoming)[j] == m[j];
    } else if Lookup(m, name).None? {
      assert Merge(base, incoming)[|m|] == incoming[k];
    }
  }

  /** Merging adds only incoming flags, and only those whose name the base lacked. */
  lemma {:induction false} MergeAddsOnlyAbsent(base: seq<Flag>, incoming: seq<Flag>)
    ensures |base| <= |Merge(base, incoming)|
    ensures Merge(base, incoming)[..|base|] == base
    ensures forall k :: |base| <= k < |Merge(base, incoming)| ==>
      Merge(base, incoming)[k] in incoming && Lookup(base, Merge(base, incoming)[k].name).None?
  {
    if incoming != [] {
      var init := incoming[..|incoming| - 1];
      MergeAddsOnlyAbsent(base, init);
      var m0 := Merge(base, init);
      var m := Merge(base, incoming);
      forall k | |base| <= k < |m|
        ensures m[k] in incoming && Lookup(base, m[k].name).None?
      {
        if k < |m0| {
          assert m[k] == m0[k];
          assert m0[k] in init;
        } else {
          var f := incoming[|incoming| - 1];
          assert m[k] == f;
          forall i | 0 <= i < |base| ensures base[i].name != f.name {
            assert m0[i] == base[i];
          }
        }
      }
    }
  }

  /** A flag whose name is absent is appended at the end. */
  lemma MergeAbsent(base: seq<Flag>, f: Flag)
    requires Lookup(base, f.name).None?
    ensures Merge(base, [f]) == base + [f]
  {
    assert [f][..0] == [];
  }

  /** A set of flags owned by one command and updated in place. */
  class FlagSet {
    var flags: seq<Flag>

    ghost predicate Valid()
      reads this
    {
      UniqueNames(flags)
    }

    constructor (flags: seq<Flag>)
      requires UniqueNames(flags)
      ensures Valid()
      ensures this.flags == flags
    {
      this.flags := flags;
    }

    /** Adds every flag of `newSet` whose name this set does not hold yet. */
    method AddFlagSet(newSet: FlagSet)
      requires Valid()
      modifies this
      ensures Valid()
      ensures flags == Merge(old(flags), old(newSet.flags))
    {
      var incoming := newSet.flags;
      for i := 0 to |incoming|
        invariant flags == Merge(old(flags), incoming[..i])
      {
        assert incoming[..i + 1][..i] == incoming[..i];
        if Lookup(flags, incoming[i].name).None? {
          flags := flags + [incoming[i]];
        }
      }
      assert incoming[..|incoming|] == incoming;
      MergeKeepsBase(old(flags), incoming);
    }
  }
}
