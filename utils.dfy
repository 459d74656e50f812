/** Pure lookup of a declared flag from a raw command-line token, by long
    form (`--name`) or short form (`-n`). */
module Utils {
  import opened Flags

  /** What a lookup yields: the flag, or one of the two "absent" values the
      lookups distinguish (`null` for the bare token `--`, `undefined`
      otherwise). Callers treat both as "not a flag". */
  datatype Lookup = Found(flag: Flag) | Null | Undefined

  /** The token starts with the two-character long-form prefix `--`. */
  predicate LongPrefixed(arg: string) {
    |arg| >= 2 && arg[..2] == "--"
  }

  /** The token names `f` in long form: `--` followed by the non-empty name. */
  predicate NamesLong(arg: string, f: Flag) {
    |arg| >= 3 && LongPrefixed(arg) && f.flag == arg[2..]
  }

  /** The token names `f` in short form: exactly a dash and `f`'s short name. */
  predicate NamesShort(arg: string, f: Flag) {
    |arg| == 2 && arg[0] == '-' && f.shortFlag == [arg[1]]
  }

  /** The token denotes `f` for `FindFlag`: a `--`-prefixed token is only ever
      read in long form, any other token only in short form. */
  predicate Denotes(arg: string, f: Flag) {
    if LongPrefixed(arg) then NamesLong(arg, f) else NamesShort(arg, f)
  }

  /** What a list search compares: a flag's long name, or its short name
      against one character. */
  datatype Key = Long(name: string) | Short(c: char)

  predicate Keyed(f: Flag, k: Key) {
    match k
    case Long(name) => f.flag == name
    case Short(c) => f.shortFlag == [c]
  }

  /** The list search the lookups use: the first flag, in list order, that
      has key `k`, or `undefined` when none does. */
  function Find(flags: seq<Flag>, k: Key): (r: Lookup)
    ensures !r.Null?
    ensures r.Found? ==> exists i :: 0 <= i < |flags| && flags[i] == r.flag && Keyed(flags[i], k) &&
                                     forall j :: 0 <= j < i ==> !Keyed(flags[j], k)
    ensures r.Undefined? <==> forall i :: 0 <= i < |flags| ==> !Keyed(flags[i], k)
  {
    if flags == [] then Undefined
    else if Keyed(flags[0], k) then Found(flags[0])
    else
      var r := Find(flags[1..], k);
      assert forall i :: 1 <= i < |flags| ==> flags[i] == flags[1..][i - 1];
      r
  }

  /** Short-form lookup: a token that is not a dash followed by exactly one
      character finds nothing. */
  function FindShortFlag(arg: string, flags: seq<Flag>): (r: Lookup)
    ensures !r.Null?
    ensures (|arg| == 0 || arg[0] != '-' || |arg| != 2) ==> r == Undefined
    ensures r.Found? ==> r.flag in flags && NamesShort(arg, r.flag)
  {
    if !(|arg| >= 1 && arg[0] == '-') then Undefined
    else if |arg| != 2 then Undefined
    else Find(flags, Short(arg[1]))
  }

  /** The short-form lookup yields the first flag the token names, and
      `undefined` exactly when it names none. */
  lemma FindShortFlagFirst(arg: string, flags: seq<Flag>)
    ensures var r := FindShortFlag(arg, flags);
            (r.Found? ==> exists i :: 0 <= i < |flags| && flags[i] == r.flag &&
                                      forall j :: 0 <= j < i ==> !NamesShort(arg, flags[j])) &&
            (r.Undefined? <==> forall i :: 0 <= i < |flags| ==> !NamesShort(arg, flags[i]))
  {
  }

  /** Long- or short-form lookup. `--` alone yields `null`; a `--`-prefixed
      token never falls back to the short form. */
  function FindFlag(arg: string, flags: seq<Flag>): (r: Lookup)
    ensures r.Null? <==> arg == "--"
    ensures (|arg| == 0 || arg[0] != '-') ==> r == Undefined
    ensures r.Found? ==> r.flag in flags && Denotes(arg, r.flag)
  {
    if !LongPrefixed(arg) then FindShortFlag(arg, flags)
    else if |arg| < 3 then Null
    else Find(flags, Long(arg[2..]))
  }

  /** The lookup yields the first flag the token denotes, and `undefined`
      exactly when the token is not `--` and denotes none. */
  lemma FindFlagFirst(arg: string, flags: seq<Flag>)
    ensures var r := FindFlag(arg, flags);
            (r.Found? ==> exists i :: 0 <= i < |flags| && flags[i] == r.flag &&
                                      forall j :: 0 <= j < i ==> !Denotes(arg, flags[j])) &&
            (r.Undefined? <==> arg != "--" && forall i :: 0 <= i < |flags| ==> !Denotes(arg, flags[i]))
  {
  }

  /** Every declared flag with a non-empty name is found by its long form,
      and what is found carries that name. */
  lemma LongFormComplete(f: Flag, flags: seq<Flag>)
    requires f in flags && f.flag != ""
    ensures FindFlag("--" + f.flag, flags).Found?
    ensures FindFlag("--" + f.flag, flags).flag.flag == f.flag
  {
  }

  /** Every declared flag whose short name is one character other than `-`
      is found by its short form, and what is found carries that short name. */
  lemma ShortFormComplete(f: Flag, flags: seq<Flag>)
    requires f in flags && |f.shortFlag| == 1 && f.shortFlag[0] != '-'
    ensures FindFlag("-" + f.shortFlag, flags).Found?
    ensures FindFlag("-" + f.shortFlag, flags).flag.shortFlag == f.shortFlag
  {
  }
}
