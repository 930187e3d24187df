/** RegexGroupMatches (src/ExcelMazRegex.cs:295-397): the names of the capture
    groups that succeeded in any of the first matches, in the first match's
    group order, optionally rewritten by a name transform. */
module GroupMatches {
  import opened ExcelValues
  import opened Coercion
  import opened GroupWalk

  /** The number of matches among `ms[..n]` whose group `i` succeeded
      (`gmatched[i]`). */
  function CountSuccesses(ms: seq<Match>, n: nat, i: nat): (c: nat)
    requires n <= |ms|
    ensures c <= n
  {
    if n == 0 then 0
    else CountSuccesses(ms, n - 1, i) + (if i < |ms[n - 1].groups| && ms[n - 1].groups[i].success then 1 else 0)
  }

  /** Some match among `ms[..n]` has a successful group past the first match's
      group count, where `++gmatched[gnum]` indexes outside the array. */
  predicate Overflows(ms: seq<Match>, n: nat, gcount: nat): (b: bool)
    requires n <= |ms|
    ensures b ==> exists k :: 0 <= k < n && gcount < |ms[k].groups|
  {
    exists k, j :: 0 <= k < n && gcount <= j < |ms[k].groups| && ms[k].groups[j].success
  }

  /** The listed name of a column: the transform's rewrite when its pattern is
      non-empty (a missing replacement being ""), the raw name otherwise. */
  function ColumnName(name: string, tpattern: Option<string>, treplacement: Option<string>,
                      transform: (string, string, string) -> string): (c: string)
    ensures tpattern.None? || tpattern == Some("") ==> c == name
  {
    if tpattern.Some? && tpattern.value != "" then
      transform(name, tpattern.value, if treplacement.None? then "" else treplacement.value)
    else name
  }

  /** The columns: one per group of the first match, named by `ColumnName`,
      and eligible when its count over the first `n` matches is positive. */
  function Columns(ms: seq<Match>, n: nat, tpattern: Option<string>, treplacement: Option<string>,
                   transform: (string, string, string) -> string): (cols: seq<Group>)
    requires 1 <= n <= |ms|
    ensures |cols| == |ms[0].groups|
    ensures forall i :: 0 <= i < |cols| ==>
      cols[i] == Group(ColumnName(ms[0].groups[i].name, tpattern, treplacement, transform), CountSuccesses(ms, n, i) > 0)
  {
    seq(|ms[0].groups|, i requires 0 <= i < |ms[0].groups| =>
      Group(ColumnName(ms[0].groups[i].name, tpattern, treplacement, transform), CountSuccesses(ms, n, i) > 0))
  }

  /** Column 0 (the whole match) is listed only when it is the only column. */
  function FirstColumn(gcount: nat): (r: nat)
    ensures r <= 1 && (r == 0 <==> gcount == 1)
  {
    if gcount == 1 then 0 else 1
  }

  /** The listed names, for a call with at least one match. */
  function GroupTokens(ms: seq<Match>, maxMatches: Int32, maxGroups: Int32, incdups: bool,
                       tpattern: Option<string>, treplacement: Option<string>,
                       transform: (string, string, string) -> string): seq<string>
    requires ms != []
  {
    var n := Min(Budget(maxMatches), |ms|);
    WalkNames(Columns(ms, n, tpattern, treplacement, transform), FirstColumn(|ms[0].groups|),
              Budget(maxGroups), incdups, {}).names
  }

  /** The whole function. No match at all faults (`rmc[0]`), as does an
      empty listing (`"".Substring(1)`). */
  function GroupMatchesResult(input: Option<string>, pattern: Option<string>, ms: seq<Match>,
                              maxMatches: Int32, maxGroups: Int32, includeDuplicates: ExcelArg,
                              tpattern: Option<string>, treplacement: Option<string>,
                              transform: (string, string, string) -> string): (r: Outcome)
    ensures BadArguments(input, pattern) ==> r == ValueError
    ensures !BadArguments(input, pattern) && ms == [] ==> r == Fault
    ensures !BadArguments(input, pattern) && ms != [] && !ms[0].success ==> r == NA
    ensures r.Text? ==> ms != [] && ms[0].success
  {
    if BadArguments(input, pattern) then ValueError
    else if ms == [] then Fault
    else if !ms[0].success then NA
    else if Overflows(ms, Min(Budget(maxMatches), |ms|), |ms[0].groups|) then Fault
    else ColumnListing(ms, Min(Budget(maxMatches), |ms|), maxGroups, IncludeDuplicates(includeDuplicates),
                       tpattern, treplacement, transform)
  }

  /** The outcome of the emission once the counts over the first `n` matches
      are known: an empty listing faults. */
  function ColumnListing(ms: seq<Match>, n: nat, maxGroups: Int32, incdups: bool,
                         tpattern: Option<string>, treplacement: Option<string>,
                         transform: (string, string, string) -> string): Outcome
    requires 1 <= n <= |ms|
  {
    var toks := WalkNames(Columns(ms, n, tpattern, treplacement, transform), FirstColumn(|ms[0].groups|),
                          Budget(maxGroups), incdups, {}).names;
    if toks == [] then Fault else Text(Join(toks, ","))
  }

  /** The imperative function: name and count arrays filled index by index, a
      counted walk over the matches, the optional transform array, and the
      emission loop with the global `MaxGroups` countdown. */
  method RegexGroupMatches(input: Option<string>, pattern: Option<string>, ms: seq<Match>,
                           maxMatches: Int32, maxGroups: Int32, includeDuplicates: ExcelArg,
                           tpattern: Option<string>, treplacement: Option<string>,
                           transform: (string, string, string) -> string)
    returns (r: Outcome)
    ensures r == GroupMatchesResult(input, pattern, ms, maxMatches, maxGroups, includeDuplicates,
                                    tpattern, treplacement, transform)
  {
    if input.None? || pattern.None? || pattern.value == "" {
      return ValueError;
    }
    var incdups := IncludeDuplicates(includeDuplicates);
    if |ms| == 0 {
      return Fault;
    }
    var firstmatch := ms[0];
    if !firstmatch.success {
      return NA;
    }
    var rgc := firstmatch.groups;
    var gcount := |rgc|;
    var gmatched, n := CountGroupMatches(ms, gcount, maxMatches);
    if gmatched == null {
      return Fault;
    }
    var gnames := GroupNames(rgc);
    var stripnames := tpattern.Some? && tpattern.value != "";
    var gstripped := new string[gcount](_ => "");
    if stripnames {
      var repl := if treplacement.None? || treplacement.value == "" then "" else treplacement.value;
      TransformNames(gnames, gstripped, tpattern.value, repl, transform);
    }

    assert GroupMatchesResult(input, pattern, ms, maxMatches, maxGroups, includeDuplicates,
                              tpattern, treplacement, transform)
        == ColumnListing(ms, n, maxGroups, incdups, tpattern, treplacement, transform);
    ghost var cols := Columns(ms, n, tpattern, treplacement, transform);
    assert forall t :: 0 <= t < gcount ==>
      cols[t] == Group(if stripnames then gstripped[t] else gnames[t], gmatched[t] > 0);

    var matchlist := EmitColumns(gmatched, gnames, gstripped, stripnames, maxGroups, incdups, cols);
    ghost var toks := WalkNames(cols, FirstColumn(gcount), Budget(maxGroups), incdups, {}).names;
    Serialized(toks);
    if matchlist == "" {
      return Fault;
    }
    return Text(matchlist[1..]);
  }

  /** The name array (src/ExcelMazRegex.cs:349-353): the first match's group
      names, index by index. */
  method GroupNames(rgc: seq<Group>) returns (gnames: array<string>)
    ensures fresh(gnames) && gnames.Length == |rgc|
    ensures forall t :: 0 <= t < |rgc| ==> gnames[t] == rgc[t].name
  {
    gnames := new string[|rgc|](_ => "");
    var gnum := 0;
    while gnum < |rgc|
      invariant 0 <= gnum <= |rgc|
      invariant forall t :: 0 <= t < gnum ==> gnames[t] == rgc[t].name
      modifies gnames
    {
      gnames[gnum] := rgc[gnum].name;
      gnum := gnum + 1;
    }
  }

  /** The transform loop (src/ExcelMazRegex.cs:374-375): one `Regex.Replace`
      per column name. */
  method TransformNames(gnames: array<string>, gstripped: array<string>, tpattern: string, repl: string,
                        transform: (string, string, string) -> string)
    requires gstripped != gnames && gstripped.Length == gnames.Length
    modifies gstripped
    ensures forall t :: 0 <= t < gstripped.Length ==> gstripped[t] == transform(gnames[t], tpattern, repl)
  {
    var i := 0;
    while i < gstripped.Length
      invariant 0 <= i <= gstripped.Length
      invariant forall t :: 0 <= t < i ==> gstripped[t] == transform(gnames[t], tpattern, repl)
      modifies gstripped
    {
      gstripped[i] := transform(gnames[i], tpattern, repl);
      i := i + 1;
    }
  }

  /** The emission loop (src/ExcelMazRegex.cs:379-391): walk the columns from
      `FirstColumn`, append ",name" for each eligible column whose (possibly
      transformed) name duplicates are allowed for or is unseen, counting
      `MaxGroups` down and stopping at zero. */
  method EmitColumns(gmatched: array<int>, gnames: array<string>, gstripped: array<string>, stripnames: bool,
                     maxGroups: Int32, incdups: bool, ghost cols: seq<Group>)
    returns (matchlist: string)
    requires gmatched.Length == gnames.Length == gstripped.Length == |cols|
    requires forall t :: 0 <= t < |cols| ==>
      cols[t] == Group(if stripnames then gstripped[t] else gnames[t], gmatched[t] > 0)
    ensures matchlist == Prefixed(WalkNames(cols, FirstColumn(|cols|), Budget(maxGroups), incdups, {}).names, ",")
  {
    var gcount := gmatched.Length;
    matchlist := "";
    var seengroup: set<string> := {};
    var mg := maxGroups;
    ghost var emitted: seq<string> := [];
    ghost var total := WalkNames(cols, FirstColumn(gcount), Budget(maxGroups), incdups, {});
    var i := if gcount == 1 then 0 else 1;
    AppendNil(total.names);
    while i < gcount
      invariant FirstColumn(gcount) <= i
      invariant matchlist == Prefixed(emitted, ",")
      invariant total == Resume(emitted, WalkNames(cols, i, Budget(mg), incdups, seengroup))
    {
      assert cols[i] == Group(if stripnames then gstripped[i] else gnames[i], gmatched[i] > 0);
      if gmatched[i] > 0 {
        var gname := if stripnames then gstripped[i] else gnames[i];
        assert cols[i].name == gname && cols[i].success;
        if incdups || gname !in seengroup {
          WalkCountStep(cols, i, mg, incdups, seengroup, emitted, total);
          PrefixedAppend(emitted, gname, ",");
          ghost var seen0 := seengroup;
          matchlist := matchlist + "," + gname;
          emitted := emitted + [gname];
          mg := Dec(mg);
          if mg == 0 {
            break;
          }
          if !incdups {
            seengroup := seengroup + {gname};
          }
          assert seengroup == if incdups then seen0 else seen0 + {gname};
        } else {
          WalkSkipStep(cols, i, Budget(mg), incdups, seengroup);
        }
      } else {
        WalkSkipStep(cols, i, Budget(mg), incdups, seengroup);
      }
      i := i + 1;
    }
    AppendNil(emitted);
    assert total == Walk(emitted, seengroup);
  }

  /** The counting pass (src/ExcelMazRegex.cs:348, 356-365): a fresh count
      array, then for each of the first `MaxMatches` matches one increment per
      successful group. A successful group past the array's end raises, which
      is reported as `null`. */
  method CountGroupMatches(ms: seq<Match>, gcount: nat, maxMatches: Int32)
    returns (gmatched: array?<int>, ghost n: nat)
    requires ms != []
    ensures n == Min(Budget(maxMatches), |ms|)
    ensures gmatched == null <==> Overflows(ms, n, gcount)
    ensures gmatched != null ==> fresh(gmatched) && gmatched.Length == gcount
    ensures gmatched != null ==> forall i :: 0 <= i < gcount ==> gmatched[i] == CountSuccesses(ms, n, i)
  {
    n := Min(Budget(maxMatches), |ms|);
    var counts := new int[gcount](_ => 0);
    var mm := maxMatches;
    var k := 0;
    while k < |ms|
      invariant 0 <= k <= |ms|
      invariant k + Budget(mm) == Budget(maxMatches)
      invariant !Overflows(ms, k, gcount)
      invariant forall i :: 0 <= i < gcount ==> counts[i] == CountSuccesses(ms, k, i)
    {
      var groups := ms[k].groups;
      var gnum := 0;
      while gnum < |groups|
        invariant 0 <= gnum <= |groups|
        invariant forall j :: 0 <= j < gnum && gcount <= j ==> !groups[j].success
        invariant forall i :: 0 <= i < gcount ==>
          counts[i] == CountSuccesses(ms, k, i) + (if i < gnum && groups[i].success then 1 else 0)
      {
        if groups[gnum].success {
          if gnum >= gcount {
            assert Overflows(ms, k + 1, gcount);
            OverflowsGrows(ms, k + 1, n, gcount);
            return null, n;
          }
          counts[gnum] := counts[gnum] + 1;
        }
        gnum := gnum + 1;
      }
      assert !Overflows(ms, k + 1, gcount);
      DecBudget(mm);
      mm := Dec(mm);
      k := k + 1;
      if mm == 0 {
        break;
      }
    }
    return counts, n;
  }

  lemma OverflowsGrows(ms: seq<Match>, m: nat, n: nat, gcount: nat)
    requires m <= n <= |ms| && Overflows(ms, m, gcount)
    ensures Overflows(ms, n, gcount)
  {
  }

  // ---------------------------------------------------------------------
  // Properties

  /** The names a column list may draw on: the eligible columns from
      `FirstColumn` on, in first-match group order. */
  function EligibleNames(ms: seq<Match>, maxMatches: Int32, tpattern: Option<string>, treplacement: Option<string>,
                         transform: (string, string, string) -> string): seq<string>
    requires ms != []
  {
    SuccessNames(Columns(ms, Min(Budget(maxMatches), |ms|), tpattern, treplacement, transform), FirstColumn(|ms[0].groups|))
  }

  /** A column counts a success exactly when one of the processed matches has
      that group successful. */
  lemma {:induction false} CountedIffSucceeded(ms: seq<Match>, n: nat, i: nat)
    requires n <= |ms|
    ensures CountSuccesses(ms, n, i) > 0 <==> exists k :: 0 <= k < n && i < |ms[k].groups| && ms[k].groups[i].success
  {
    if n > 0 {
      CountedIffSucceeded(ms, n - 1, i);
      if i < |ms[n - 1].groups| && ms[n - 1].groups[i].success {
        assert 0 <= n - 1 < n && i < |ms[n - 1].groups| && ms[n - 1].groups[i].success;
      }
    }
  }

  /** Whatever the duplicate policy, the list holds at most `MaxGroups` names
      (when positive) and is a subsequence of the eligible names. */
  lemma GroupTokensBounded(ms: seq<Match>, maxMatches: Int32, maxGroups: Int32, incdups: bool,
                           tpattern: Option<string>, treplacement: Option<string>,
                           transform: (string, string, string) -> string)
    requires ms != []
    ensures var toks := GroupTokens(ms, maxMatches, maxGroups, incdups, tpattern, treplacement, transform);
      && |toks| <= Budget(maxGroups)
      && (maxGroups > 0 ==> |toks| <= maxGroups)
      && IsSubseq(toks, EligibleNames(ms, maxMatches, tpattern, treplacement, transform))
  {
    var n := Min(Budget(maxMatches), |ms|);
    WalkNamesBounded(Columns(ms, n, tpattern, treplacement, transform), FirstColumn(|ms[0].groups|),
                     Budget(maxGroups), incdups, {});
  }

  /** With duplicates included the list is exactly the first `MaxGroups`
      eligible names. */
  lemma GroupTokensWithDuplicates(ms: seq<Match>, maxMatches: Int32, maxGroups: Int32,
                                  tpattern: Option<string>, treplacement: Option<string>,
                                  transform: (string, string, string) -> string)
    requires ms != []
    ensures GroupTokens(ms, maxMatches, maxGroups, true, tpattern, treplacement, transform)
            == Take(EligibleNames(ms, maxMatches, tpattern, treplacement, transform), Budget(maxGroups))
  {
    var n := Min(Budget(maxMatches), |ms|);
    WalkNamesWithDuplicates(Columns(ms, n, tpattern, treplacement, transform), FirstColumn(|ms[0].groups|),
                            Budget(maxGroups), {});
  }

  /** With duplicates excluded the listed (transformed) names are pairwise
      distinct, and when the ceiling is not reached every eligible name is
      listed. */
  lemma GroupTokensWithoutDuplicates(ms: seq<Match>, maxMatches: Int32, maxGroups: Int32,
                                     tpattern: Option<string>, treplacement: Option<string>,
                                     transform: (string, string, string) -> string)
    requires ms != []
    ensures Distinct(GroupTokens(ms, maxMatches, maxGroups, false, tpattern, treplacement, transform))
    ensures Budget(maxGroups) > |ms[0].groups| ==>
      forall x :: x in EligibleNames(ms, maxMatches, tpattern, treplacement, transform) ==>
        x in GroupTokens(ms, maxMatches, maxGroups, false, tpattern, treplacement, transform)
    ensures GroupTokens(ms, maxMatches, maxGroups, false, tpattern, treplacement, transform)
            == Take(Fresh(EligibleNames(ms, maxMatches, tpattern, treplacement, transform), {}), Budget(maxGroups))
  {
    var n := Min(Budget(maxMatches), |ms|);
    var cols := Columns(ms, n, tpattern, treplacement, transform);
    WalkNamesWithoutDuplicates(cols, FirstColumn(|ms[0].groups|), Budget(maxGroups), {});
    WalkNamesFresh(cols, FirstColumn(|ms[0].groups|), Budget(maxGroups), {});
  }

  /** With duplicates included, a call whose first match succeeded lists the
      first `MaxGroups` eligible column names joined by ",", unless a wider
      later match faults or nothing is eligible. */
  lemma GroupMatchesWithDuplicates(input: Option<string>, pattern: Option<string>, ms: seq<Match>,
                                   maxMatches: Int32, maxGroups: Int32, includeDuplicates: ExcelArg,
                                   tpattern: Option<string>, treplacement: Option<string>,
                                   transform: (string, string, string) -> string)
    requires !BadArguments(input, pattern) && ms != [] && ms[0].success
    requires IncludeDuplicates(includeDuplicates)
    ensures var t := Take(EligibleNames(ms, maxMatches, tpattern, treplacement, transform), Budget(maxGroups));
      GroupMatchesResult(input, pattern, ms, maxMatches, maxGroups, includeDuplicates, tpattern, treplacement, transform)
      == if Overflows(ms, Min(Budget(maxMatches), |ms|), |ms[0].groups|) then Fault
         else if t == [] then Fault else Text(Join(t, ","))
  {
    GroupTokensWithDuplicates(ms, maxMatches, maxGroups, tpattern, treplacement, transform);
  }

  /** With duplicates excluded, the same holds for the first `MaxGroups` first
      occurrences of the eligible column names. */
  lemma GroupMatchesWithoutDuplicates(input: Option<string>, pattern: Option<string>, ms: seq<Match>,
                                      maxMatches: Int32, maxGroups: Int32, includeDuplicates: ExcelArg,
                                      tpattern: Option<string>, treplacement: Option<string>,
                                      transform: (string, string, string) -> string)
    requires !BadArguments(input, pattern) && ms != [] && ms[0].success
    requires !IncludeDuplicates(includeDuplicates)
    ensures var t := Take(Fresh(EligibleNames(ms, maxMatches, tpattern, treplacement, transform), {}), Budget(maxGroups));
      GroupMatchesResult(input, pattern, ms, maxMatches, maxGroups, includeDuplicates, tpattern, treplacement, transform)
      == if Overflows(ms, Min(Budget(maxMatches), |ms|), |ms[0].groups|) then Fault
         else if t == [] then Fault else Text(Join(t, ","))
  {
    GroupTokensWithoutDuplicates(ms, maxMatches, maxGroups, tpattern, treplacement, transform);
  }

  /** A transform that maps every name to itself lists the same as no
      transform at all. */
  lemma IdentityTransform(input: Option<string>, pattern: Option<string>, ms: seq<Match>,
                          maxMatches: Int32, maxGroups: Int32, includeDuplicates: ExcelArg,
                          tpattern: Option<string>, treplacement: Option<string>,
                          transform: (string, string, string) -> string)
    requires forall name, p, q :: transform(name, p, q) == name
    ensures GroupMatchesResult(input, pattern, ms, maxMatches, maxGroups, includeDuplicates,
                               tpattern, treplacement, transform)
         == GroupMatchesResult(input, pattern, ms, maxMatches, maxGroups, includeDuplicates,
                               None, treplacement, transform)
  {
    if ms != [] {
      var n := Min(Budget(maxMatches), |ms|);
      assert Columns(ms, n, tpattern, treplacement, transform) == Columns(ms, n, None, treplacement, transform);
    }
  }

  /** A later match with a successful group beyond the first match's group
      count faults (the count array is sized by the first match). */
  lemma WiderLaterMatchFaults()
    ensures GroupMatchesResult(Some("ab"), Some("a|(b)"),
                               [Match(true, "a", [Group("0", true)]),
                                Match(true, "b", [Group("0", true), Group("1", true)])],
                               0, 0, Missing, None, None, (x, p, q) => x) == Fault
  {
    var ms := [Match(true, "a", [Group("0", true)]),
               Match(true, "b", [Group("0", true), Group("1", true)])];
    assert 1 <= |ms[1].groups| && ms[1].groups[1].success;
  }

  /** Two matches of `(?<l>[a-z]+)(?<d>\d+)` with duplicates excluded list the
      columns once: "l,d". */
  lemma ColumnScenario()
    ensures var m := Match(true, "ab12", [Group("0", true), Group("l", true), Group("d", true)]);
      GroupMatchesResult(Some("ab12cd34"), Some("(?<l>[a-z]+)(?<d>\\d+)"), [m, m], 0, 0, Bool(false),
                         None, None, (x, p, q) => x)
      == Text("l,d")
  {
    var m := Match(true, "ab12", [Group("0", true), Group("l", true), Group("d", true)]);
    var ms := [m, m];
    assert !Overflows(ms, 2, 3);
    var cols := Columns(ms, 2, None, None, (x, p, q) => x);
    assert CountSuccesses(ms, 1, 1) == 1 && CountSuccesses(ms, 1, 2) == 1;
    assert CountSuccesses(ms, 2, 1) == 2 && CountSuccesses(ms, 2, 2) == 2;
    assert cols == [Group("0", true), Group("l", true), Group("d", true)];
    assert WalkNames(cols, 3, 0x1_0000_0000 - 2, false, {"l", "d"}) == Walk([], {"l", "d"});
    assert WalkNames(cols, 1, Budget(0), false, {}).names == ["l", "d"];
    assert Join(["l", "d"], ",") == "l,d";
  }
}
