/** RegexMatchGroups (src/ExcelMazRegex.cs:134-232): the names of the
    successful capture groups, match after match, joined by ",". */
module MatchGroups {
  import opened ExcelValues
  import opened Coercion
  import opened GroupWalk

  /** The tokens appended while walking one match, or the #N/A early return. */
  datatype Step = Abort | Walked(toks: seq<string>, seen: set<string>)

  /** One match: group 0 is never listed; the very first group 0 reached
      decides #N/A; the other groups are walked against the per-match ceiling
      `gb`; a match holding only group 0 contributes the token "0". */
  function WalkMatch(groups: seq<Group>, gb: nat, incdups: bool, seen: set<string>, isfirst: bool): (r: Step)
    requires gb >= 1
    ensures r.Abort? <==> |groups| > 0 && isfirst && !groups[0].success
    ensures r.Walked? && |groups| == 1 ==> r.toks == ["0"]
    ensures r.Walked? ==> |r.toks| <= gb
  {
    if |groups| == 0 then Walked([], seen)
    else if isfirst && !groups[0].success then Abort
    else
      var w := WalkNames(groups, 1, gb, incdups, seen);
      Walked(w.names + (if |groups| == 1 then ["0"] else []), w.seen)
  }

  function Then(t: seq<string>, rest: Option<seq<string>>): Option<seq<string>>
  {
    match rest
    case None => None
    case Some(r) => Some(t + r)
  }

  lemma ThenThen(a: seq<string>, b: seq<string>, rest: Option<seq<string>>)
    ensures Then(a, Then(b, rest)) == Then(a + b, rest)
    ensures Then([], rest) == rest
  {
    if rest.Some? {
      assert a + (b + rest.value) == (a + b) + rest.value;
      assert [] + rest.value == rest.value;
    }
  }

  /** The matches from index `k` on, with `left` matches still allowed; `None`
      is the #N/A early return. */
  function WalkMatches(ms: seq<Match>, k: nat, left: nat, gb: nat, incdups: bool, seen: set<string>, isfirst: bool)
    : (r: Option<seq<string>>)
    requires left >= 1 && gb >= 1
    ensures r.None? ==> isfirst && k < |ms|
    decreases |ms| - k
  {
    if k >= |ms| then Some([])
    else
      match WalkMatch(ms[k].groups, gb, incdups, seen, isfirst)
      case Abort => None
      case Walked(t, seen') =>
        if left == 1 then Some(t)
        else Then(t, WalkMatches(ms, k + 1, left - 1, gb, incdups, seen', isfirst && |ms[k].groups| == 0))
  }

  /** The whole function: argument check, coercions, walk, serialization.
      An empty token list faults, as `"".Substring(1)` throws. */
  function MatchGroupsResult(input: Option<string>, pattern: Option<string>, ms: seq<Match>,
                             maxMatches: Int32, maxGroups: ExcelArg, includeDuplicates: ExcelArg): (r: Outcome)
    ensures BadArguments(input, pattern) ==> r == ValueError
    ensures !BadArguments(input, pattern) && maxGroups.Missing? ==> r == Fault
    ensures !BadArguments(input, pattern) && MaxGroupsArg(maxGroups).Value? && ms == [] ==> r == Fault
  {
    if BadArguments(input, pattern) then ValueError
    else
      match MaxGroupsArg(maxGroups)
      case Raise(e) => e
      case Value(g) => Listing(ms, maxMatches, g, IncludeDuplicates(includeDuplicates))
  }

  /** The outcome of the walk once the arguments are coerced. */
  function Listing(ms: seq<Match>, maxMatches: Int32, maxgrp: Int32, incdups: bool): (r: Outcome)
    ensures r != ValueError
    ensures ms == [] ==> r == Fault
    ensures r == NA ==> ms != []
  {
    match WalkMatches(ms, 0, Budget(maxMatches), Budget(maxgrp), incdups, {}, true)
    case None => NA
    case Some(toks) => if toks == [] then Fault else Text(Join(toks, ","))
  }

  /** The imperative function: nested loops over matches and groups, a string
      accumulator, a seen set, and the countdown counters `gfound` (reset per
      match) and `MaxMatches`. */
  method RegexMatchGroups(input: Option<string>, pattern: Option<string>, ms: seq<Match>,
                          maxMatches: Int32, maxGroups: ExcelArg, includeDuplicates: ExcelArg)
    returns (r: Outcome)
    ensures r == MatchGroupsResult(input, pattern, ms, maxMatches, maxGroups, includeDuplicates)
  {
    if input.None? || pattern.None? || pattern.value == "" {
      return ValueError;
    }
    var incdups := IncludeDuplicates(includeDuplicates);
    var maxgrp: Int32 := 0;
    var coerced := MaxGroupsArg(maxGroups);
    match coerced {
      case Raise(e) => return e;
      case Value(g) => maxgrp := g;
    }
    assert MatchGroupsResult(input, pattern, ms, maxMatches, maxGroups, includeDuplicates)
        == Listing(ms, maxMatches, maxgrp, incdups);
    ghost var gb := Budget(maxgrp);
    ghost var total := WalkMatches(ms, 0, Budget(maxMatches), gb, incdups, {}, true);

    var seengroup: set<string> := {};
    var matchlist := "";
    var isfirst := true;
    var mm := maxMatches;
    var k := 0;
    ghost var toks: seq<string> := [];
    ThenThen([], [], total);
    while k < |ms|
      invariant 0 <= k <= |ms|
      invariant matchlist == Prefixed(toks, ",")
      invariant total == Then(toks, WalkMatches(ms, k, Budget(mm), gb, incdups, seengroup, isfirst))
    {
      ghost var step := WalkMatch(ms[k].groups, gb, incdups, seengroup, isfirst);
      MatchStep(ms, k, mm, gb, incdups, seengroup, isfirst, toks, total);
      var abort;
      abort, matchlist, seengroup, isfirst := ListGroupsOfMatch(ms[k].groups, maxgrp, incdups, seengroup, isfirst, matchlist);
      if abort {
        assert Listing(ms, maxMatches, maxgrp, incdups) == NA;
        return NA;
      }
      PrefixedConcat(toks, step.toks, ",");
      toks := toks + step.toks;
      mm := Dec(mm);
      if mm == 0 {
        break;
      }
      k := k + 1;
    }
    AppendNil(toks);
    assert total == Some(toks);
    Serialized(toks);
    if matchlist == "" {
      return Fault;
    }
    return Text(matchlist[1..]);
  }

  /** One match of the outer loop, phrased on the `MaxMatches` counter: #N/A,
      the end of the walk once `--MaxMatches` reads zero, or the walk resuming
      after the match. */
  lemma MatchStep(ms: seq<Match>, k: nat, mm: Int32, gb: nat, incdups: bool, seen: set<string>, isfirst: bool,
                  toks: seq<string>, total: Option<seq<string>>)
    requires k < |ms| && gb >= 1
    requires total == Then(toks, WalkMatches(ms, k, Budget(mm), gb, incdups, seen, isfirst))
    ensures var step := WalkMatch(ms[k].groups, gb, incdups, seen, isfirst);
      && (step.Abort? ==> total == None)
      && (step.Walked? && Dec(mm) == 0 ==> total == Some(toks + step.toks))
      && (step.Walked? && Dec(mm) != 0 ==>
            total == Then(toks + step.toks,
                          WalkMatches(ms, k + 1, Budget(Dec(mm)), gb, incdups, step.seen, isfirst && |ms[k].groups| == 0)))
  {
    DecBudget(mm);
    var step := WalkMatch(ms[k].groups, gb, incdups, seen, isfirst);
    if step.Walked? && Dec(mm) != 0 {
      ThenThen(toks, step.toks, WalkMatches(ms, k + 1, Budget(Dec(mm)), gb, incdups, step.seen, isfirst && |ms[k].groups| == 0));
    }
  }

  /** The body of the outer loop: walk the groups of one match, appending
      ",name" to the accumulator for each listed group and ",0" when the match
      holds only group 0, or report the #N/A early return. */
  method ListGroupsOfMatch(groups: seq<Group>, maxgrp: Int32, incdups: bool, seen: set<string>, isfirst: bool,
                           matchlist: string)
    returns (abort: bool, matchlist': string, seen': set<string>, isfirst': bool)
    ensures var step := WalkMatch(groups, Budget(maxgrp), incdups, seen, isfirst);
      && (abort <==> step.Abort?)
      && (!abort ==> seen' == step.seen && matchlist' == matchlist + Prefixed(step.toks, ","))
      && (!abort ==> isfirst' == (isfirst && |groups| == 0))
  {
    if |groups| == 0 {
      return false, matchlist, seen, isfirst;
    }
    // group 0: only the very first one is looked at, for the #N/A check
    isfirst' := isfirst;
    if isfirst' {
      if !groups[0].success {
        return true, matchlist, seen, isfirst';
      }
      isfirst' := false;
    }
    ghost var w := WalkNames(groups, 1, Budget(maxgrp), incdups, seen);
    matchlist', seen' := ListNames(groups, maxgrp, incdups, seen, matchlist);
    if |groups| == 1 {
      PrefixedAppend(w.names, "0", ",");
      matchlist' := matchlist' + ",0";
    } else {
      AppendNil(w.names);
    }
    return false, matchlist', seen', isfirst';
  }

  /** The inner `foreach` from group 1 on: append ",name" for every listed
      group, counting `gfound` down from `maxgrp` and stopping at zero. */
  method ListNames(groups: seq<Group>, maxgrp: Int32, incdups: bool, seen: set<string>, matchlist: string)
    returns (matchlist': string, seen': set<string>)
    ensures var w := WalkNames(groups, 1, Budget(maxgrp), incdups, seen);
      seen' == w.seen && matchlist' == matchlist + Prefixed(w.names, ",")
  {
    ghost var emitted: seq<string> := [];
    ghost var total := WalkNames(groups, 1, Budget(maxgrp), incdups, seen);
    matchlist', seen' := matchlist, seen;
    var gfound := maxgrp;
    var gnum := 1;
    AppendNil(total.names);
    while gnum < |groups|
      invariant 1 <= gnum
      invariant matchlist' == matchlist + Prefixed(emitted, ",")
      invariant total == Resume(emitted, WalkNames(groups, gnum, Budget(gfound), incdups, seen'))
    {
      var rg := groups[gnum];
      if rg.success && (incdups || rg.name !in seen') {
        WalkCountStep(groups, gnum, gfound, incdups, seen', emitted, total);
        PrefixedAppendTo(matchlist, emitted, rg.name, ",");
        matchlist' := matchlist' + "," + rg.name;
        emitted := emitted + [rg.name];
        gfound := Dec(gfound);
        if gfound == 0 {
          break;
        }
        if !incdups {
          seen' := seen' + {rg.name};
        }
      } else {
        WalkSkipStep(groups, gnum, Budget(gfound), incdups, seen');
      }
      gnum := gnum + 1;
    }
    AppendNil(emitted);
    assert total == Walk(emitted, seen');
  }


  // ---------------------------------------------------------------------
  // Properties

  /** Reference definition of what one match contributes when duplicates are
      included: its first `gb` successful names after group 0, and "0" when the
      match holds group 0 alone. */
  function MatchTokens(groups: seq<Group>, gb: nat): seq<string>
  {
    Take(SuccessNames(groups, 1), gb) + (if |groups| == 1 then ["0"] else [])
  }

  function Listed(ms: seq<Match>, gb: nat): seq<string>
  {
    if ms == [] then [] else MatchTokens(ms[0].groups, gb) + Listed(ms[1..], gb)
  }

  /** Once the first group 0 has been checked, no later match returns #N/A. */
  lemma {:induction false} NoAbortAfterFirst(ms: seq<Match>, k: nat, left: nat, gb: nat, incdups: bool, seen: set<string>)
    requires left >= 1 && gb >= 1
    requires forall m :: m in ms ==> |m.groups| >= 1
    ensures WalkMatches(ms, k, left, gb, incdups, seen, false).Some?
    decreases |ms| - k
  {
    if k < |ms| && left > 1 {
      assert ms[k] in ms;
      var w := WalkNames(ms[k].groups, 1, gb, incdups, seen);
      NoAbortAfterFirst(ms, k + 1, left - 1, gb, incdups, w.seen);
    }
  }

  /** #N/A is returned exactly when the first match's group 0 failed (for a
      producer that reports group 0 in every match). */
  lemma MatchGroupsNotApplicable(input: Option<string>, pattern: Option<string>, ms: seq<Match>,
                                 maxMatches: Int32, maxGroups: ExcelArg, includeDuplicates: ExcelArg)
    requires !BadArguments(input, pattern) && MaxGroupsArg(maxGroups).Value?
    requires forall m :: m in ms ==> |m.groups| >= 1
    ensures MatchGroupsResult(input, pattern, ms, maxMatches, maxGroups, includeDuplicates) == NA
        <==> ms != [] && !ms[0].groups[0].success
  {
    if ms != [] && ms[0].groups[0].success {
      assert ms[0] in ms;
      var gb := Budget(MaxGroupsArg(maxGroups).n);
      var incdups := IncludeDuplicates(includeDuplicates);
      var w := WalkNames(ms[0].groups, 1, gb, incdups, {});
      if Budget(maxMatches) > 1 {
        NoAbortAfterFirst(ms, 1, Budget(maxMatches) - 1, gb, incdups, w.seen);
      }
    }
  }

  lemma ListedCons(ms: seq<Match>, k: nat, n: nat, gb: nat)
    requires k < n <= |ms|
    ensures Listed(ms[k..n], gb) == MatchTokens(ms[k].groups, gb) + Listed(ms[k + 1..n], gb)
  {
    var part := ms[k..n];
    assert part[0] == ms[k];
    assert part[1..] == ms[k + 1..n];
  }

  /** With duplicates included, one match lists its reference tokens and
      leaves the seen set alone. */
  lemma MatchWithDuplicates(groups: seq<Group>, gb: nat, seen: set<string>, isfirst: bool)
    requires gb >= 1 && |groups| >= 1 && (isfirst ==> groups[0].success)
    ensures WalkMatch(groups, gb, true, seen, isfirst) == Walked(MatchTokens(groups, gb), seen)
  {
    WalkNamesWithDuplicates(groups, 1, gb, seen);
  }

  /** With duplicates included, the walk from match `k` lists exactly the
      reference tokens of the next `left` matches. */
  lemma {:induction false} WalkMatchesWithDuplicates(ms: seq<Match>, k: nat, left: nat, gb: nat, seen: set<string>, isfirst: bool)
    requires left >= 1 && gb >= 1 && k <= |ms|
    requires forall i :: 0 <= i < |ms| ==> |ms[i].groups| >= 1
    requires isfirst && k < |ms| ==> ms[k].groups[0].success
    ensures WalkMatches(ms, k, left, gb, true, seen, isfirst) == Some(Listed(ms[k..Min(k + left, |ms|)], gb))
    decreases |ms| - k
  {
    var n := Min(k + left, |ms|);
    if k == |ms| {
      assert ms[k..n] == [];
    } else {
      var groups := ms[k].groups;
      var t := MatchTokens(groups, gb);
      MatchWithDuplicates(groups, gb, seen, isfirst);
      ListedCons(ms, k, n, gb);
      if left == 1 {
        assert ms[k + 1..n] == [];
        AppendNil(t);
        assert WalkMatches(ms, k, left, gb, true, seen, isfirst) == Some(t);
      } else {
        assert (isfirst && |groups| == 0) == false;
        assert WalkMatches(ms, k, left, gb, true, seen, isfirst)
            == Then(t, WalkMatches(ms, k + 1, left - 1, gb, true, seen, false));
        WalkMatchesWithDuplicates(ms, k + 1, left - 1, gb, seen, false);
        assert Min(k + 1 + (left - 1), |ms|) == n;
        assert WalkMatches(ms, k + 1, left - 1, gb, true, seen, false) == Some(Listed(ms[k + 1..n], gb));
        assert WalkMatches(ms, k, left, gb, true, seen, isfirst) == Some(t + Listed(ms[k + 1..n], gb));
      }
    }
  }

  /** With duplicates included, the result is the reference tokens of the first
      `MaxMatches` matches (all of them when it is zero or negative), joined by
      ",", or a fault when there are none. */
  lemma MatchGroupsWithDuplicates(input: Option<string>, pattern: Option<string>, ms: seq<Match>,
                                  maxMatches: Int32, maxGroups: ExcelArg, includeDuplicates: ExcelArg)
    requires !BadArguments(input, pattern) && MaxGroupsArg(maxGroups).Value?
    requires IncludeDuplicates(includeDuplicates)
    requires forall m :: m in ms ==> |m.groups| >= 1
    requires ms != [] ==> ms[0].groups[0].success
    ensures var toks := Listed(ms[..Min(Budget(maxMatches), |ms|)], Budget(MaxGroupsArg(maxGroups).n));
      MatchGroupsResult(input, pattern, ms, maxMatches, maxGroups, includeDuplicates)
      == if toks == [] then Fault else Text(Join(toks, ","))
  {
    var g := MaxGroupsArg(maxGroups).n;
    assert MatchGroupsResult(input, pattern, ms, maxMatches, maxGroups, includeDuplicates)
        == Listing(ms, maxMatches, g, true);
    forall i | 0 <= i < |ms| ensures |ms[i].groups| >= 1 {
      assert ms[i] in ms;
    }
    ListedWalk(ms, maxMatches, g);
  }

  /** The walk with duplicates included, from the first match, is the
      reference listing of the first `MaxMatches` matches. */
  lemma ListedWalk(ms: seq<Match>, maxMatches: Int32, g: Int32)
    requires forall i :: 0 <= i < |ms| ==> |ms[i].groups| >= 1
    requires ms != [] ==> ms[0].groups[0].success
    ensures WalkMatches(ms, 0, Budget(maxMatches), Budget(g), true, {}, true)
         == Some(Listed(ms[..Min(Budget(maxMatches), |ms|)], Budget(g)))
  {
    var n := Min(Budget(maxMatches), |ms|);
    WalkMatchesWithDuplicates(ms, 0, Budget(maxMatches), Budget(g), {}, true);
    assert Min(0 + Budget(maxMatches), |ms|) == n;
    assert ms[0..n] == ms[..n];
  }

  /** Reference definition of one match's tokens with duplicates excluded:
      the first occurrence of each unseen successful name after group 0, cut
      off at the ceiling, or "0" for a match holding group 0 alone. */
  function FreshTokens(groups: seq<Group>, gb: nat, seen: set<string>): seq<string>
  {
    Take(Fresh(SuccessNames(groups, 1), seen), gb) + (if |groups| == 1 then ["0"] else [])
  }

  /** The names a match leaves remembered: those it listed, except the one
      that exhausted the ceiling. */
  function FreshSeen(groups: seq<Group>, gb: nat, seen: set<string>): set<string>
    requires gb >= 1
  {
    seen + Elems(Take(Fresh(SuccessNames(groups, 1), seen), gb - 1))
  }

  function ListedFresh(ms: seq<Match>, gb: nat, seen: set<string>): seq<string>
    requires gb >= 1
  {
    if ms == [] then []
    else FreshTokens(ms[0].groups, gb, seen) + ListedFresh(ms[1..], gb, FreshSeen(ms[0].groups, gb, seen))
  }

  /** With duplicates excluded, one match lists its first occurrences of
      unseen names and remembers them. */
  lemma MatchWithoutDuplicates(groups: seq<Group>, gb: nat, seen: set<string>, isfirst: bool)
    requires gb >= 1 && |groups| >= 1 && (isfirst ==> groups[0].success)
    ensures WalkMatch(groups, gb, false, seen, isfirst)
         == Walked(FreshTokens(groups, gb, seen), FreshSeen(groups, gb, seen))
  {
    WalkNamesFresh(groups, 1, gb, seen);
  }

  lemma ListedFreshCons(ms: seq<Match>, k: nat, n: nat, gb: nat, seen: set<string>)
    requires k < n <= |ms| && gb >= 1
    ensures ListedFresh(ms[k..n], gb, seen)
         == FreshTokens(ms[k].groups, gb, seen) + ListedFresh(ms[k + 1..n], gb, FreshSeen(ms[k].groups, gb, seen))
  {
    var part := ms[k..n];
    assert part[0] == ms[k];
    assert part[1..] == ms[k + 1..n];
  }

  /** One step of the walk over matches, once the first match is known. */
  lemma WalkMatchesStep(ms: seq<Match>, k: nat, left: nat, gb: nat, incdups: bool, seen: set<string>, isfirst: bool,
                        t: seq<string>, seen': set<string>)
    requires left >= 2 && gb >= 1 && k < |ms| && |ms[k].groups| >= 1
    requires WalkMatch(ms[k].groups, gb, incdups, seen, isfirst) == Walked(t, seen')
    ensures WalkMatches(ms, k, left, gb, incdups, seen, isfirst)
         == Then(t, WalkMatches(ms, k + 1, left - 1, gb, incdups, seen', false))
  {
  }

  /** The inductive step of `WalkMatchesFresh`: a walk over match `k` and
      the reference tokens it contributes. */
  lemma WalkMatchesFreshStep(ms: seq<Match>, k: nat, n: nat, left: nat, gb: nat, seen: set<string>, isfirst: bool,
                             rest: Option<seq<string>>)
    requires left >= 1 && gb >= 1 && k < |ms| && |ms[k].groups| >= 1 && n == Min(k + left, |ms|)
    requires isfirst ==> ms[k].groups[0].success
    requires rest == WalkMatches(ms, k + 1, if left >= 2 then left - 1 else 1, gb, false, FreshSeen(ms[k].groups, gb, seen), false)
    requires left >= 2 ==> rest == Some(ListedFresh(ms[k + 1..n], gb, FreshSeen(ms[k].groups, gb, seen)))
    ensures WalkMatches(ms, k, left, gb, false, seen, isfirst) == Some(ListedFresh(ms[k..n], gb, seen))
  {
    var groups := ms[k].groups;
    var t := FreshTokens(groups, gb, seen);
    var seen' := FreshSeen(groups, gb, seen);
    assert WalkMatch(groups, gb, false, seen, isfirst) == Walked(t, seen') by {
      MatchWithoutDuplicates(groups, gb, seen, isfirst);
    }
    if left == 1 {
      assert n == k + 1;
      assert ListedFresh(ms[k..n], gb, seen) == t by {
        ListedFreshCons(ms, k, n, gb, seen);
        assert ms[k + 1..n] == [];
        AppendNil(t);
      }
    } else {
      WalkMatchesStep(ms, k, left, gb, false, seen, isfirst, t, seen');
      assert ListedFresh(ms[k..n], gb, seen) == t + ListedFresh(ms[k + 1..n], gb, seen') by {
        ListedFreshCons(ms, k, n, gb, seen);
      }
    }
  }

  lemma WalkMatchesFreshEnd(ms: seq<Match>, left: nat, gb: nat, seen: set<string>, isfirst: bool)
    requires left >= 1 && gb >= 1
    ensures WalkMatches(ms, |ms|, left, gb, false, seen, isfirst) == Some(ListedFresh(ms[|ms|..|ms|], gb, seen))
  {
    assert ms[|ms|..|ms|] == [];
  }

  /** With duplicates excluded, the walk from match `k` lists exactly the
      reference tokens of the next `left` matches. */
  lemma {:induction false} WalkMatchesFresh(ms: seq<Match>, k: nat, n: nat, left: nat, gb: nat, seen: set<string>, isfirst: bool)
    requires left >= 1 && gb >= 1 && k <= |ms| && n == Min(k + left, |ms|)
    requires forall i :: 0 <= i < |ms| ==> |ms[i].groups| >= 1
    requires isfirst && k < |ms| ==> ms[k].groups[0].success
    ensures WalkMatches(ms, k, left, gb, false, seen, isfirst) == Some(ListedFresh(ms[k..n], gb, seen))
    decreases |ms| - k
  {
    if k == |ms| {
      WalkMatchesFreshEnd(ms, left, gb, seen, isfirst);
    } else {
      var seen' := FreshSeen(ms[k].groups, gb, seen);
      var rest := WalkMatches(ms, k + 1, if left >= 2 then left - 1 else 1, gb, false, seen', false);
      if left >= 2 {
        WalkMatchesFresh(ms, k + 1, n, left - 1, gb, seen', false);
      }
      WalkMatchesFreshStep(ms, k, n, left, gb, seen, isfirst, rest);
    }
  }

  lemma ListedFreshWalk(ms: seq<Match>, maxMatches: Int32, g: Int32)
    requires forall i :: 0 <= i < |ms| ==> |ms[i].groups| >= 1
    requires ms != [] ==> ms[0].groups[0].success
    ensures WalkMatches(ms, 0, Budget(maxMatches), Budget(g), false, {}, true)
         == Some(ListedFresh(ms[..Min(Budget(maxMatches), |ms|)], Budget(g), {}))
  {
    var n := Min(Budget(maxMatches), |ms|);
    WalkMatchesFresh(ms, 0, n, Budget(maxMatches), Budget(g), {}, true);
    assert ms[0..n] == ms[..n];
  }

  /** With duplicates excluded, the result is the reference tokens of the first
      `MaxMatches` matches joined by ",", or a fault when there are none. */
  lemma MatchGroupsWithoutDuplicates(input: Option<string>, pattern: Option<string>, ms: seq<Match>,
                                     maxMatches: Int32, maxGroups: ExcelArg, includeDuplicates: ExcelArg)
    requires !BadArguments(input, pattern) && MaxGroupsArg(maxGroups).Value?
    requires !IncludeDuplicates(includeDuplicates)
    requires forall m :: m in ms ==> |m.groups| >= 1
    requires ms != [] ==> ms[0].groups[0].success
    ensures var toks := ListedFresh(ms[..Min(Budget(maxMatches), |ms|)], Budget(MaxGroupsArg(maxGroups).n), {});
      MatchGroupsResult(input, pattern, ms, maxMatches, maxGroups, includeDuplicates)
      == if toks == [] then Fault else Text(Join(toks, ","))
  {
    var g := MaxGroupsArg(maxGroups).n;
    assert MatchGroupsResult(input, pattern, ms, maxMatches, maxGroups, includeDuplicates)
        == Listing(ms, maxMatches, g, false);
    forall i | 0 <= i < |ms| ensures |ms[i].groups| >= 1 {
      assert ms[i] in ms;
    }
    ListedFreshWalk(ms, maxMatches, g);
  }

  /** Every repeated token is "0". */
  predicate NamesOnce(toks: seq<string>)
  {
    forall i, j :: 0 <= i < j < |toks| && toks[i] != "0" ==> toks[i] != toks[j]
  }

  /** One match's tokens: distinct names, and a "0" only when nothing else is listed. */
  lemma MatchTokensOnce(names: seq<string>, whole: bool)
    requires Distinct(names)
    ensures var t := names + (if whole then ["0"] else []);
      NamesOnce(t) && forall x :: x in t && x != "0" ==> x in names
  {
  }

  /** Tokens that all lie in `avoid` followed by tokens that all avoid it. */
  lemma NamesOnceJoin(t: seq<string>, rest: seq<string>, avoid: set<string>, seen: set<string>)
    requires NamesOnce(t) && NamesOnce(rest) && seen <= avoid
    requires forall x :: x in t && x != "0" ==> x in avoid && x !in seen
    requires forall x :: x in rest && x != "0" ==> x !in avoid
    ensures NamesOnce(t + rest) && forall x :: x in t + rest && x != "0" ==> x !in seen
  {
    var r := t + rest;
    forall i, j | 0 <= i < j < |r| && r[i] != "0" ensures r[i] != r[j] {
      if j < |t| {
        assert r[i] == t[i] && r[j] == t[j];
      } else if i < |t| {
        assert r[i] == t[i] && r[j] == rest[j - |t|];
        assert r[i] in t && r[j] in rest;
      } else {
        assert r[i] == rest[i - |t|] && r[j] == rest[j - |t|];
      }
    }
    forall x | x in r && x != "0" ensures x !in seen {
      if x !in t {
        assert x in rest;
      }
    }
  }

  /** No group name other than "0" is listed twice, and none that was already seen. */
  lemma {:induction false} WalkMatchesNamesOnce(ms: seq<Match>, k: nat, left: nat, gb: nat, seen: set<string>, isfirst: bool)
    requires left >= 1 && gb >= 1
    requires forall i :: 0 <= i < |ms| ==> |ms[i].groups| <= gb
    ensures var r := WalkMatches(ms, k, left, gb, false, seen, isfirst);
      r.Some? ==> NamesOnce(r.value) && forall x :: x in r.value && x != "0" ==> x !in seen
    decreases |ms| - k
  {
    var r := WalkMatches(ms, k, left, gb, false, seen, isfirst);
    if k < |ms| && r.Some? {
      var groups := ms[k].groups;
      if |groups| > 0 {
        WalkNamesWithoutDuplicates(groups, 1, gb, seen);
        var w := WalkNames(groups, 1, gb, false, seen);
        var t := w.names + (if |groups| == 1 then ["0"] else []);
        MatchTokensOnce(w.names, |groups| == 1);
        assert WalkMatch(groups, gb, false, seen, isfirst) == Walked(t, w.seen);
        if left > 1 {
          var isfirst' := isfirst && |groups| == 0;
          WalkMatchesNamesOnce(ms, k + 1, left - 1, gb, w.seen, isfirst');
          var rest := WalkMatches(ms, k + 1, left - 1, gb, false, w.seen, isfirst').value;
          NamesOnceJoin(t, rest, w.seen, seen);
          assert r.value == t + rest;
        } else {
          assert r.value == t;
        }
      } else if left > 1 {
        WalkMatchesNamesOnce(ms, k + 1, left - 1, gb, seen, isfirst);
        var rest := WalkMatches(ms, k + 1, left - 1, gb, false, seen, isfirst).value;
        AppendNil(rest);
        assert r.value == [] + rest;
      }
    }
  }

  /** With duplicates excluded and a per-match ceiling that no match can
      exhaust, every successful named group of the walked matches was seen
      before or is listed. */
  lemma {:induction false} WalkMatchesCovers(ms: seq<Match>, k: nat, left: nat, gb: nat, seen: set<string>, isfirst: bool)
    requires left >= 1 && gb >= 1
    requires forall i :: 0 <= i < |ms| ==> |ms[i].groups| <= gb
    ensures var r := WalkMatches(ms, k, left, gb, false, seen, isfirst);
      r.Some? ==> forall i, j :: k <= i < Min(k + left, |ms|) && 1 <= j < |ms[i].groups| && ms[i].groups[j].success
                    ==> ms[i].groups[j].name in seen || ms[i].groups[j].name in r.value
    decreases |ms| - k
  {
    var r := WalkMatches(ms, k, left, gb, false, seen, isfirst);
    if k < |ms| && r.Some? {
      var groups := ms[k].groups;
      var n := Min(k + left, |ms|);
      if |groups| > 0 {
        var w := WalkNames(groups, 1, gb, false, seen);
        var t := w.names + (if |groups| == 1 then ["0"] else []);
        assert WalkMatch(groups, gb, false, seen, isfirst) == Walked(t, w.seen);
        assert forall j :: 1 <= j < |groups| && groups[j].success ==> groups[j].name in seen || groups[j].name in t by {
          WalkNamesWithoutDuplicates(groups, 1, gb, seen);
          forall j | 1 <= j < |groups| && groups[j].success ensures groups[j].name in seen || groups[j].name in t {
            SuccessNamesHas(groups, 1, j);
          }
        }
        if left > 1 {
          var isfirst' := isfirst && |groups| == 0;
          WalkMatchesCovers(ms, k + 1, left - 1, gb, w.seen, isfirst');
          var rest := WalkMatches(ms, k + 1, left - 1, gb, false, w.seen, isfirst').value;
          assert r.value == t + rest;
          assert Min(k + 1 + (left - 1), |ms|) == n;
          assert forall x :: x in w.seen ==> x in seen || x in w.names by {
            WalkNamesWithoutDuplicates(groups, 1, gb, seen);
          }
        } else {
          assert r.value == t;
        }
      } else if left > 1 {
        WalkMatchesCovers(ms, k + 1, left - 1, gb, seen, isfirst);
        var rest := WalkMatches(ms, k + 1, left - 1, gb, false, seen, isfirst).value;
        AppendNil(rest);
        assert r.value == [] + rest;
        assert Min(k + 1 + (left - 1), |ms|) == n;
      }
    }
  }

  /** With duplicates excluded and a per-match ceiling that no match can
      exhaust, no group name is listed twice, across all matches, and none
      that was already seen; and every
      successful named group of the walked matches was seen before or is listed. */
  lemma WalkMatchesWithoutDuplicates(ms: seq<Match>, k: nat, left: nat, gb: nat, seen: set<string>, isfirst: bool)
    requires left >= 1 && gb >= 1
    requires forall i :: 0 <= i < |ms| ==> |ms[i].groups| <= gb
    ensures var r := WalkMatches(ms, k, left, gb, false, seen, isfirst);
      r.Some? ==> NamesOnce(r.value) && forall x :: x in r.value && x != "0" ==> x !in seen
    ensures var r := WalkMatches(ms, k, left, gb, false, seen, isfirst);
      r.Some? ==> forall i, j :: k <= i < Min(k + left, |ms|) && 1 <= j < |ms[i].groups| && ms[i].groups[j].success
                    ==> ms[i].groups[j].name in seen || ms[i].groups[j].name in r.value
  {
    WalkMatchesNamesOnce(ms, k, left, gb, seen, isfirst);
    WalkMatchesCovers(ms, k, left, gb, seen, isfirst);
  }

  /** The name that exhausts the per-match ceiling is listed but not
      remembered, because the `break` precedes the `Add`: with one group per
      match allowed and duplicates excluded, a name repeated in two matches is
      listed twice, while a ceiling of two lists it once. */
  lemma ExhaustingNameNotRemembered()
    ensures var m := Match(true, "x", [Group("0", true), Group("a", true)]);
      && MatchGroupsResult(Some("xx"), Some("(?<a>x)"), [m, m], 0, Num(1), Bool(false)) == Text("a,a")
      && MatchGroupsResult(Some("xx"), Some("(?<a>x)"), [m, m], 0, Num(2), Bool(false)) == Text("a")
  {
    var m := Match(true, "x", [Group("0", true), Group("a", true)]);
    CeilingOneRepeats(m);
    CeilingTwoRemembers(m);
    assert MatchGroupsResult(Some("xx"), Some("(?<a>x)"), [m, m], 0, Num(1), Bool(false)) == Listing([m, m], 0, 1, false);
    assert MatchGroupsResult(Some("xx"), Some("(?<a>x)"), [m, m], 0, Num(2), Bool(false)) == Listing([m, m], 0, 2, false);
  }

  /** A ceiling of one: "a" exhausts it in each match and is not remembered. */
  lemma CeilingOneRepeats(m: Match)
    requires m.groups == [Group("0", true), Group("a", true)]
    ensures Listing([m, m], 0, 1, false) == Text("a,a")
  {
    var ms := [m, m];
    var unlimited := Budget(0);
    assert WalkNames(m.groups, 1, 1, false, {}) == Walk(["a"], {});
    assert WalkMatch(m.groups, 1, false, {}, true) == Walked(["a"], {});
    assert WalkMatch(m.groups, 1, false, {}, false) == Walked(["a"], {});
    AppendNil(["a"]);
    assert ["a"] + ["a"] == ["a", "a"];
    assert WalkMatches(ms, 2, unlimited - 2, 1, false, {}, false) == Some([]);
    assert WalkMatches(ms, 1, unlimited - 1, 1, false, {}, false) == Some(["a"]);
    assert WalkMatches(ms, 0, unlimited, 1, false, {}, true) == Some(["a", "a"]);
    assert Join(["a", "a"], ",") == "a,a";
  }

  /** A ceiling of two: "a" is remembered, so the second match lists nothing. */
  lemma CeilingTwoRemembers(m: Match)
    requires m.groups == [Group("0", true), Group("a", true)]
    ensures Listing([m, m], 0, 2, false) == Text("a")
  {
    var ms := [m, m];
    var unlimited := Budget(0);
    assert WalkNames(m.groups, 2, 1, false, {"a"}) == Walk([], {"a"});
    assert WalkNames(m.groups, 1, 2, false, {}) == Walk(["a"], {"a"});
    assert WalkNames(m.groups, 1, 2, false, {"a"}) == Walk([], {"a"});
    assert WalkMatch(m.groups, 2, false, {}, true) == Walked(["a"], {"a"});
    assert WalkMatch(m.groups, 2, false, {"a"}, false) == Walked([], {"a"});
    AppendNil<string>([]);
    AppendNil(["a"]);
    assert WalkMatches(ms, 2, unlimited - 2, 2, false, {"a"}, false) == Some([]);
    assert WalkMatches(ms, 1, unlimited - 1, 2, false, {"a"}, false) == Some([]);
    assert WalkMatches(ms, 0, unlimited, 2, false, {}, true) == Some(["a"]);
  }

  /** Two matches of `(?<l>[a-z]+)(?<d>\d+)` list "l,d,l,d". */
  lemma NamedGroupsScenario()
    ensures var m1 := Match(true, "ab12", [Group("0", true), Group("l", true), Group("d", true)]);
      var m2 := Match(true, "cd34", [Group("0", true), Group("l", true), Group("d", true)]);
      MatchGroupsResult(Some("ab12cd34"), Some("(?<l>[a-z]+)(?<d>\\d+)"), [m1, m2], 0, Num(0), Missing)
      == Text("l,d,l,d")
  {
    var unlimited := Budget(0);
    var m1 := Match(true, "ab12", [Group("0", true), Group("l", true), Group("d", true)]);
    var m2 := Match(true, "cd34", [Group("0", true), Group("l", true), Group("d", true)]);
    var ms := [m1, m2];
    LetterDigitMatch(m1, true);
    LetterDigitMatch(m2, false);
    AppendNil(["l", "d"]);
    assert ["l", "d"] + ["l", "d"] == ["l", "d", "l", "d"];
    assert WalkMatches(ms, 2, unlimited - 2, unlimited, true, {}, false) == Some([]);
    assert WalkMatches(ms, 1, unlimited - 1, unlimited, true, {}, false) == Some(["l", "d"]);
    assert WalkMatches(ms, 0, unlimited, unlimited, true, {}, true) == Some(["l", "d", "l", "d"]);
    JoinLetterDigit();
    assert MatchGroupsResult(Some("ab12cd34"), Some("(?<l>[a-z]+)(?<d>\\d+)"), ms, 0, Num(0), Missing)
        == Listing(ms, 0, 0, true);
  }

  lemma JoinLetterDigit()
    ensures Join(["l", "d", "l", "d"], ",") == "l,d,l,d"
  {
  }

  /** One match of `(?<l>[a-z]+)(?<d>\d+)` lists its two group names. */
  lemma LetterDigitMatch(m: Match, isfirst: bool)
    requires m.groups == [Group("0", true), Group("l", true), Group("d", true)]
    ensures WalkMatch(m.groups, Budget(0), true, {}, isfirst) == Walked(["l", "d"], {})
  {
    assert WalkNames(m.groups, 3, Budget(0) - 2, true, {}) == Walk([], {});
    assert WalkNames(m.groups, 2, Budget(0) - 1, true, {}) == Walk(["d"], {});
    assert WalkNames(m.groups, 1, Budget(0), true, {}) == Walk(["l", "d"], {});
  }

  /** A match of a pattern without capture groups lists "0". */
  lemma WholeMatchScenario()
    ensures MatchGroupsResult(Some("42"), Some("\\d+"), [Match(true, "42", [Group("0", true)])], 0, Num(0), Missing)
      == Text("0")
  {
    var unlimited := Budget(0);
    var m := Match(true, "42", [Group("0", true)]);
    assert WalkNames(m.groups, 1, unlimited, true, {}) == Walk([], {});
    assert WalkMatch(m.groups, unlimited, true, {}, true) == Walked(["0"], {});
    AppendNil(["0"]);
    assert WalkMatches([m], 1, unlimited - 1, unlimited, true, {}, false) == Some([]);
    assert WalkMatches([m], 0, unlimited, unlimited, true, {}, true) == Some(["0"]);
    assert MatchGroupsResult(Some("42"), Some("\\d+"), [m], 0, Num(0), Missing) == Listing([m], 0, 0, true);
  }
}
