/** The flag loop of command-node resolution, as a specification: every token
    in flag position must denote a declared flag, and each flag greedily takes
    the tokens after it as its arguments until the end of the list, an empty
    token, or a token starting with `-`. */
module Scanning {
  import opened Common
  import opened Flags
  import opened Utils

  /** A token the argument loop takes: non-empty and not starting with `-`. */
  predicate Slurpable(token: string) {
    token != "" && token[0] != '-'
  }

  /** The end (exclusive) of the run of takeable tokens that starts at `j`. */
  function SlurpEnd(tokens: seq<string>, j: nat): (k: nat)
    requires j <= |tokens|
    ensures j <= k <= |tokens|
    ensures forall m :: j <= m < k ==> Slurpable(tokens[m])
    ensures k < |tokens| ==> !Slurpable(tokens[k])
    decreases |tokens| - j
  {
    if j < |tokens| && Slurpable(tokens[j]) then SlurpEnd(tokens, j + 1) else j
  }

  /** `SlurpEnd` is the only position that ends a run of takeable tokens. */
  lemma SlurpEndUnique(tokens: seq<string>, j: nat, k: nat)
    requires j <= k <= |tokens|
    requires forall m :: j <= m < k ==> Slurpable(tokens[m])
    requires k == |tokens| || !Slurpable(tokens[k])
    ensures SlurpEnd(tokens, j) == k
  {
  }

  /** One matched flag: the token that named it, the flag, and the tokens it took. */
  datatype Match = Match(token: string, flag: Flag, taken: seq<string>)

  /** The matches in input order, and the token that named no flag, if any.
      A scan stops at that token: nothing after it is looked at. */
  datatype Scan = Scan(matches: seq<Match>, invalid: Option<string>)

  /** The loop over `tokens[i..]`. */
  function ScanFrom(tokens: seq<string>, flags: seq<Flag>, i: nat): (s: Scan)
    requires i <= |tokens|
    ensures forall m :: m in s.matches ==> m.flag in flags
    ensures s.invalid.Some? ==> s.invalid.value in tokens[i..] && !FindFlag(s.invalid.value, flags).Found?
    decreases |tokens| - i
  {
    if i == |tokens| then Scan([], None)
    else match FindFlag(tokens[i], flags)
      case Found(f) =>
        var k := SlurpEnd(tokens, i + 1);
        var rest := ScanFrom(tokens, flags, k);
        assert tokens[k..] == tokens[i..][k - i..];
        Scan([Match(tokens[i], f, tokens[i + 1..k])] + rest.matches, rest.invalid)
      case _ => Scan([], Some(tokens[i]))
  }

  /** A reference description of a correct scan of `tokens[i..]`, as a grammar:
      each match is a token denoting its flag followed by the longest run of
      takeable tokens; the list ends, or a token that denotes no flag ends it. */
  ghost predicate Parses(tokens: seq<string>, flags: seq<Flag>, i: nat, ms: seq<Match>, invalid: Option<string>)
    requires i <= |tokens|
    decreases ms
  {
    if ms == [] then
      if i == |tokens| then invalid == None
      else invalid == Some(tokens[i]) && !FindFlag(tokens[i], flags).Found?
    else
      var m, n := ms[0], i + 1 + |ms[0].taken|;
      n <= |tokens| && tokens[i] == m.token && FindFlag(m.token, flags) == Found(m.flag) &&
      tokens[i + 1..n] == m.taken && (forall t :: t in m.taken ==> Slurpable(t)) &&
      (n < |tokens| ==> !Slurpable(tokens[n])) &&
      Parses(tokens, flags, n, ms[1..], invalid)
  }

  /** The loop produces a correct scan. */
  lemma {:induction false} ScanParses(tokens: seq<string>, flags: seq<Flag>, i: nat)
    requires i <= |tokens|
    ensures Parses(tokens, flags, i, ScanFrom(tokens, flags, i).matches, ScanFrom(tokens, flags, i).invalid)
    decreases |tokens| - i
  {
    if i < |tokens| && FindFlag(tokens[i], flags).Found? {
      var k := SlurpEnd(tokens, i + 1);
      ScanParses(tokens, flags, k);
      var s := ScanFrom(tokens, flags, i);
      assert s.matches[1..] == ScanFrom(tokens, flags, k).matches;
      forall t | t in tokens[i + 1..k] ensures Slurpable(t) {
        var p :| 0 <= p < |tokens[i + 1..k]| && tokens[i + 1..k][p] == t;
        assert tokens[i + 1 + p] == t;
      }
    }
  }

  /** The loop's progress: a scan that has produced `done` and has the
      scan of `tokens[i..]` left produces one more match at `i`. */
  lemma ScanAdvance(tokens: seq<string>, flags: seq<Flag>, i: nat, k: nat, m: Match, done: seq<Match>, total: Scan)
    requires i < |tokens| && FindFlag(tokens[i], flags) == Found(m.flag)
    requires k == SlurpEnd(tokens, i + 1) && m == Match(tokens[i], m.flag, tokens[i + 1..k])
    requires total.matches == done + ScanFrom(tokens, flags, i).matches && total.invalid == ScanFrom(tokens, flags, i).invalid
    ensures total.matches == (done + [m]) + ScanFrom(tokens, flags, k).matches
    ensures total.invalid == ScanFrom(tokens, flags, k).invalid
  {
  }

  /** A correct scan is unique: it is the one the loop produces. */
  lemma {:induction false} ParsesUnique(tokens: seq<string>, flags: seq<Flag>, i: nat, ms: seq<Match>, invalid: Option<string>)
    requires i <= |tokens|
    requires Parses(tokens, flags, i, ms, invalid)
    ensures ScanFrom(tokens, flags, i) == Scan(ms, invalid)
    decreases ms
  {
    if ms != [] {
      var m, n := ms[0], i + 1 + |ms[0].taken|;
      forall p | i + 1 <= p < n ensures Slurpable(tokens[p]) {
        assert tokens[p] == m.taken[p - (i + 1)];
      }
      SlurpEndUnique(tokens, i + 1, n);
      ParsesUnique(tokens, flags, n, ms[1..], invalid);
      assert ms == [ms[0]] + ms[1..];
    }
  }

  /** The tokens a list of matches accounts for, in order. */
  function Consumed(ms: seq<Match>): seq<string> {
    if ms == [] then [] else [ms[0].token] + ms[0].taken + Consumed(ms[1..])
  }

  /** The token layout a parse describes, without what it says about flags:
      each match sits at the current position, and the invalid token, if any,
      right after the last one. */
  ghost predicate Tiles(tokens: seq<string>, i: nat, ms: seq<Match>, invalid: Option<string>)
    requires i <= |tokens|
    decreases ms
  {
    if ms == [] then
      if i == |tokens| then invalid == None else invalid == Some(tokens[i])
    else
      var n := i + 1 + |ms[0].taken|;
      n <= |tokens| && tokens[i] == ms[0].token && tokens[i + 1..n] == ms[0].taken &&
      Tiles(tokens, n, ms[1..], invalid)
  }

  lemma {:induction false} ParsesTiles(tokens: seq<string>, flags: seq<Flag>, i: nat, ms: seq<Match>, invalid: Option<string>)
    requires i <= |tokens|
    requires Parses(tokens, flags, i, ms, invalid)
    ensures Tiles(tokens, i, ms, invalid)
    decreases ms
  {
    if ms != [] {
      ParsesTiles(tokens, flags, i + 1 + |ms[0].taken|, ms[1..], invalid);
    }
  }

  /** Every token is consumed exactly once: a complete scan accounts for the
      whole list, and a failed one for a prefix ending at the invalid token. */
  lemma ParsesConsumesAll(tokens: seq<string>, flags: seq<Flag>, i: nat, ms: seq<Match>, invalid: Option<string>)
    requires i <= |tokens|
    requires Parses(tokens, flags, i, ms, invalid)
    ensures invalid.None? ==> Consumed(ms) == tokens[i..]
    ensures invalid.Some? ==> |Consumed(ms)| < |tokens| - i && Consumed(ms) + [invalid.value] == tokens[i..i + |Consumed(ms)| + 1]
  {
    ParsesTiles(tokens, flags, i, ms, invalid);
    TilesConsumeAll(tokens, i, ms, invalid);
  }

  lemma {:induction false} TilesConsumeAll(tokens: seq<string>, i: nat, ms: seq<Match>, invalid: Option<string>)
    requires i <= |tokens|
    requires Tiles(tokens, i, ms, invalid)
    ensures invalid.None? ==> Consumed(ms) == tokens[i..]
    ensures invalid.Some? ==> |Consumed(ms)| < |tokens| - i && Consumed(ms) + [invalid.value] == tokens[i..i + |Consumed(ms)| + 1]
    decreases ms
  {
    if ms != [] {
      var n := i + 1 + |ms[0].taken|;
      TilesConsumeAll(tokens, n, ms[1..], invalid);
      assert tokens[i..n] == [ms[0].token] + ms[0].taken;
      if invalid.None? {
        assert tokens[i..] == tokens[i..n] + tokens[n..];
      } else {
        var c := |Consumed(ms[1..])|;
        assert tokens[i..n + c + 1] == tokens[i..n] + tokens[n..n + c + 1];
      }
    }
  }

  /** The matched flags, in match order. */
  function Selected(ms: seq<Match>): (fs: seq<Flag>)
    ensures |fs| == |ms| && forall k :: 0 <= k < |ms| ==> fs[k] == ms[k].flag
  {
    if ms == [] then [] else Selected(ms[..|ms| - 1]) + [ms[|ms| - 1].flag]
  }

  /** The arguments the matches of `f` took, in input order. */
  function Appended(ms: seq<Match>, f: Flag): seq<string> {
    if ms == [] then []
    else Appended(ms[..|ms| - 1], f) + (if ms[|ms| - 1].flag == f then ms[|ms| - 1].taken else [])
  }

  lemma AppendedSnoc(ms: seq<Match>, m: Match, f: Flag)
    ensures Appended(ms + [m], f) == Appended(ms, f) + (if m.flag == f then m.taken else [])
  {
  }

  lemma {:induction false} AppendedConcat(a: seq<Match>, b: seq<Match>, f: Flag)
    ensures Appended(a + b, f) == Appended(a, f) + Appended(b, f)
    decreases |b|
  {
    if b == [] {
      assert a + b == a;
    } else {
      var b', last := b[..|b| - 1], b[|b| - 1];
      var tail := if last.flag == f then last.taken else [];
      assert (a + b)[..|a + b| - 1] == a + b';
      assert (a + b)[|a + b| - 1] == last;
      calc {
        Appended(a + b, f);
        Appended(a + b', f) + tail;
        { AppendedConcat(a, b', f); }
        Appended(a, f) + Appended(b', f) + tail;
        Appended(a, f) + Appended(b, f);
      }
    }
  }

  /** A flag that was never matched takes no arguments. */
  lemma {:induction false} AppendedUnmatched(ms: seq<Match>, f: Flag)
    requires forall m :: m in ms ==> m.flag != f
    ensures Appended(ms, f) == []
  {
    if ms != [] {
      assert forall m :: m in ms[..|ms| - 1] ==> m in ms;
      AppendedUnmatched(ms[..|ms| - 1], f);
    }
  }

  /** Everything a flag receives was a takeable token. */
  lemma {:induction false} AppendedSlurpable(tokens: seq<string>, flags: seq<Flag>, i: nat, ms: seq<Match>, invalid: Option<string>, f: Flag)
    requires i <= |tokens|
    requires Parses(tokens, flags, i, ms, invalid)
    ensures forall t :: t in Appended(ms, f) ==> Slurpable(t)
    decreases ms
  {
    if ms != [] {
      AppendedSlurpable(tokens, flags, i + 1 + |ms[0].taken|, ms[1..], invalid, f);
      AppendedConcat([ms[0]], ms[1..], f);
      assert [ms[0]] + ms[1..] == ms;
      assert Appended([ms[0]], f) == (if ms[0].flag == f then ms[0].taken else []) by {
        assert [ms[0]][..0] == [];
      }
    }
  }

  /** The selected flags as the loop leaves them: each match puts its flag
      in front of the ones before it, so the most recent match comes first. */
  function Unshifted(ms: seq<Match>): seq<Flag> {
    if ms == [] then [] else [ms[|ms| - 1].flag] + Unshifted(ms[..|ms| - 1])
  }

  lemma UnshiftedSnoc(ms: seq<Match>, m: Match)
    ensures Unshifted(ms + [m]) == [m.flag] + Unshifted(ms)
  {
  }

  /** The most recently matched flag comes first: the selection is the
      match order reversed. */
  lemma {:induction false} UnshiftedAt(ms: seq<Match>, k: nat)
    requires k < |ms|
    ensures |Unshifted(ms)| == |ms| && Unshifted(ms)[k] == ms[|ms| - 1 - k].flag
  {
    UnshiftedLength(ms);
    if k > 0 {
      UnshiftedAt(ms[..|ms| - 1], k - 1);
    }
  }

  lemma {:induction false} UnshiftedLength(ms: seq<Match>)
    ensures |Unshifted(ms)| == |ms|
  {
    if ms != [] {
      UnshiftedLength(ms[..|ms| - 1]);
    }
  }

  /** Nothing is merged or dropped: a flag matched twice is selected twice. */
  lemma {:induction false} UnshiftedMultiset(ms: seq<Match>)
    ensures multiset(Unshifted(ms)) == multiset(Selected(ms))
  {
    if ms != [] {
      var init := ms[..|ms| - 1];
      UnshiftedMultiset(init);
      assert Selected(ms) == Selected(init) + [ms[|ms| - 1].flag];
    }
  }
}
