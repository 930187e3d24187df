/** RegexMatches (src/ExcelMazRegex.cs:237-291): the values of the successful
    matches, or their replacement expansions, joined by a delimiter. */
module Matches {
  import opened ExcelValues
  import opened Coercion
  import opened GroupWalk

  /** `(delimiter is ExcelMissing ? "," : (string)delimiter)`; the cast faults
      for anything but text. */
  function Delimiter(a: ExcelArg): (d: Option<string>)
    ensures d.None? <==> !a.Missing? && !a.Str?
    ensures a.Missing? ==> d == Some(",")
  {
    match a
    case Missing => Some(",")
    case Str(s) => Some(s)
    case _ => None
  }

  /** The token for one listed match: `Match.Result(replacement)` when the
      replacement is non-empty, the matched text otherwise. */
  function Emit(m: Match, replacement: Option<string>, result: (Match, string) -> string): (e: string)
    ensures replacement.None? || replacement == Some("") ==> e == m.value
  {
    if replacement.Some? && replacement.value != "" then result(m, replacement.value) else m.value
  }

  function Emitted(picks: seq<Match>, replacement: Option<string>, result: (Match, string) -> string): (toks: seq<string>)
    ensures |toks| == |picks|
    ensures forall i :: 0 <= i < |picks| ==> toks[i] == Emit(picks[i], replacement, result)
  {
    if picks == [] then [] else [Emit(picks[0], replacement, result)] + Emitted(picks[1..], replacement, result)
  }

  /** The matches listed from index `k` on, with `left` more allowed: each
      successful match whose raw value duplicates are allowed for or that is
      not yet seen. Only listed matches count down the ceiling, and the raw
      value, not the emitted token, is remembered. */
  function Picked(ms: seq<Match>, k: nat, left: nat, incdups: bool, seen: set<string>): (r: seq<Match>)
    requires left >= 1
    ensures |r| <= left
    ensures forall i :: 0 <= i < |r| ==> r[i].success
    decreases |ms| - k
  {
    if k >= |ms| then []
    else if ms[k].success && (incdups || ms[k].value !in seen) then
      if left == 1 then [ms[k]]
      else [ms[k]] + Picked(ms, k + 1, left - 1, incdups, if incdups then seen else seen + {ms[k].value})
    else Picked(ms, k + 1, left, incdups, seen)
  }

  /** The whole function. The accumulator is "" exactly when nothing was
      listed or every listed token and the delimiter are empty; that is #N/A. */
  function MatchesResult(input: Option<string>, pattern: Option<string>, ms: seq<Match>,
                         replacement: Option<string>, delimiter: ExcelArg, maxMatches: Int32,
                         includeDuplicates: ExcelArg, result: (Match, string) -> string): (r: Outcome)
    ensures BadArguments(input, pattern) ==> r == ValueError
    ensures !BadArguments(input, pattern) && Delimiter(delimiter).None? ==> r == Fault
    ensures !BadArguments(input, pattern) && Delimiter(delimiter).Some? && ms == [] ==> r == NA
  {
    if BadArguments(input, pattern) then ValueError
    else
      match Delimiter(delimiter)
      case None => Fault
      case Some(delim) =>
        var toks := Emitted(Picked(ms, 0, Budget(maxMatches), IncludeDuplicates(includeDuplicates), {}),
                            replacement, result);
        if Prefixed(toks, delim) == "" then NA else Text(Join(toks, delim))
  }

  method RegexMatches(input: Option<string>, pattern: Option<string>, ms: seq<Match>,
                      replacement: Option<string>, delimiter: ExcelArg, maxMatches: Int32,
                      includeDuplicates: ExcelArg, result: (Match, string) -> string)
    returns (r: Outcome)
    ensures r == MatchesResult(input, pattern, ms, replacement, delimiter, maxMatches, includeDuplicates, result)
  {
    if input.None? || pattern.None? || pattern.value == "" {
      return ValueError;
    }
    var incdups := IncludeDuplicates(includeDuplicates);
    var delim: string;
    match delimiter {
      case Missing => delim := ",";
      case Str(s) => delim := s;
      case Bool(_) => return Fault;
      case Num(_) => return Fault;
      case Other => return Fault;
    }
    ghost var toks := Emitted(Picked(ms, 0, Budget(maxMatches), incdups, {}), replacement, result);
    var rs := ListMatches(ms, replacement, delim, maxMatches, incdups, result);
    if rs == "" {
      return NA;
    }
    PrefixedEmpty(toks, delim);
    PrefixedStrip(toks, delim);
    return Text(rs[|delim|..]);
  }

  /** The `foreach` over the matches (src/ExcelMazRegex.cs:276-284): append
      `delim + token` for each successful match whose raw value duplicates are
      allowed for or is unseen, counting `MaxMatches` down over the listed
      matches only. */
  method ListMatches(ms: seq<Match>, replacement: Option<string>, delim: string, maxMatches: Int32,
                     incdups: bool, result: (Match, string) -> string)
    returns (rs: string)
    ensures rs == Prefixed(Emitted(Picked(ms, 0, Budget(maxMatches), incdups, {}), replacement, result), delim)
  {
    var seengroup: set<string> := {};
    rs := "";
    var hasReplacement := replacement.Some? && replacement.value != "";
    var mm := maxMatches;
    ghost var total := Picked(ms, 0, Budget(maxMatches), incdups, {});
    ghost var picked: seq<Match> := [];
    var k := 0;
    while k < |ms|
      invariant k <= |ms|
      invariant rs == Prefixed(Emitted(picked, replacement, result), delim)
      invariant total == picked + Picked(ms, k, Budget(mm), incdups, seengroup)
    {
      var rm := ms[k];
      if rm.success && (incdups || rm.value !in seengroup) {
        PickStep(ms, k, Budget(mm), incdups, seengroup, picked);
        EmittedAppend(picked, rm, replacement, result, delim);
        rs := rs + delim + (if hasReplacement then result(rm, replacement.value) else rm.value);
        picked := picked + [rm];
        if !incdups {
          seengroup := seengroup + {rm.value};
        }
        DecBudget(mm);
        mm := Dec(mm);
        if mm == 0 {
          break;
        }
      }
      k := k + 1;
    }
    AppendNil(picked);
  }

  lemma PickStep(ms: seq<Match>, k: nat, left: nat, incdups: bool, seen: set<string>, picked: seq<Match>)
    requires k < |ms| && left >= 1 && ms[k].success && (incdups || ms[k].value !in seen)
    ensures left == 1 ==> picked + Picked(ms, k, left, incdups, seen) == picked + [ms[k]]
    ensures left > 1 ==>
      (picked + Picked(ms, k, left, incdups, seen)
       == (picked + [ms[k]]) + Picked(ms, k + 1, left - 1, incdups, if incdups then seen else seen + {ms[k].value}))
  {
    if left > 1 {
      var rest := Picked(ms, k + 1, left - 1, incdups, if incdups then seen else seen + {ms[k].value});
      assert picked + ([ms[k]] + rest) == (picked + [ms[k]]) + rest;
    }
  }

  lemma EmittedAppend(picks: seq<Match>, m: Match, replacement: Option<string>,
                      result: (Match, string) -> string, delim: string)
    ensures Prefixed(Emitted(picks, replacement, result), delim) + delim + Emit(m, replacement, result)
         == Prefixed(Emitted(picks + [m], replacement, result), delim)
  {
    var e := Emitted(picks, replacement, result);
    assert Emitted(picks + [m], replacement, result) == e + [Emit(m, replacement, result)];
    PrefixedAppend(e, Emit(m, replacement, result), delim);
  }

  // ---------------------------------------------------------------------
  // Properties

  /** Reference definition: the successful matches from index `k` on. */
  function Successful(ms: seq<Match>, k: nat): seq<Match>
    decreases |ms| - k
  {
    if k >= |ms| then [] else (if ms[k].success then [ms[k]] else []) + Successful(ms, k + 1)
  }

  function Values(picks: seq<Match>): (vs: seq<string>)
    ensures |vs| == |picks|
    ensures forall i :: 0 <= i < |picks| ==> vs[i] == picks[i].value
  {
    if picks == [] then [] else [picks[0].value] + Values(picks[1..])
  }

  /** At most `left` matches are listed, all successful, in match order. */
  lemma {:induction false} PickedBounded(ms: seq<Match>, k: nat, left: nat, incdups: bool, seen: set<string>)
    requires left >= 1
    ensures |Picked(ms, k, left, incdups, seen)| <= left
    ensures IsSubseq(Picked(ms, k, left, incdups, seen), Successful(ms, k))
    decreases |ms| - k
  {
    if k < |ms| {
      var p := Picked(ms, k, left, incdups, seen);
      var tail := Successful(ms, k + 1);
      if ms[k].success && (incdups || ms[k].value !in seen) {
        assert Successful(ms, k) == [ms[k]] + tail;
        if left > 1 {
          var seen' := if incdups then seen else seen + {ms[k].value};
          PickedBounded(ms, k + 1, left - 1, incdups, seen');
          assert p[1..] == Picked(ms, k + 1, left - 1, incdups, seen');
        } else {
          assert p[1..] == [];
        }
      } else {
        PickedBounded(ms, k + 1, left, incdups, seen);
        if ms[k].success {
          SubseqCons(p, ms[k], tail);
        } else {
          assert Successful(ms, k) == tail;
        }
      }
    }
  }

  /** With duplicates included the listed matches are exactly the first `left`
      successful ones. */
  lemma {:induction false} PickedWithDuplicates(ms: seq<Match>, k: nat, left: nat, seen: set<string>)
    requires left >= 1
    ensures Picked(ms, k, left, true, seen) == Take(Successful(ms, k), left)
    decreases |ms| - k
  {
    if k < |ms| {
      var tail := Successful(ms, k + 1);
      if ms[k].success {
        assert Successful(ms, k) == [ms[k]] + tail;
        TakeCons(ms[k], tail, left);
        if left > 1 {
          PickedWithDuplicates(ms, k + 1, left - 1, seen);
          assert Picked(ms, k, left, true, seen) == [ms[k]] + Picked(ms, k + 1, left - 1, true, seen);
        } else {
          assert Take(tail, 0) == [];
          AppendNil([ms[k]]);
        }
      } else {
        PickedWithDuplicates(ms, k + 1, left, seen);
      }
    }
  }


  lemma ValuesCons(m: Match, rest: seq<Match>)
    ensures Values([m] + rest) == [m.value] + Values(rest)
  {
    assert ([m] + rest)[1..] == rest;
  }

  /** With duplicates excluded the listed matches have pairwise distinct raw
      values, none of them seen before. */
  lemma {:induction false} PickedWithoutDuplicates(ms: seq<Match>, k: nat, left: nat, seen: set<string>)
    requires left >= 1
    ensures var vs := Values(Picked(ms, k, left, false, seen));
      && Distinct(vs)
      && (forall v :: v in vs ==> v !in seen)
    decreases |ms| - k
  {
    if k < |ms| {
      if ms[k].success && ms[k].value !in seen && left > 1 {
        var seen' := seen + {ms[k].value};
        PickedWithoutDuplicates(ms, k + 1, left - 1, seen');
        var rest := Picked(ms, k + 1, left - 1, false, seen');
        ValuesCons(ms[k], rest);
        assert Picked(ms, k, left, false, seen) == [ms[k]] + rest;
        DistinctFreshCons(ms[k].value, Values(rest), seen);
      } else if !(ms[k].success && ms[k].value !in seen) {
        PickedWithoutDuplicates(ms, k + 1, left, seen);
      }
    }
  }

  /** With duplicates excluded and a ceiling that is not reached, every
      successful match's raw value was seen before or is listed. */
  lemma {:induction false} PickedCoversValues(ms: seq<Match>, k: nat, left: nat, seen: set<string>, i: nat)
    requires left >= 1 && left > |ms| - k
    requires k <= i < |ms| && ms[i].success
    ensures ms[i].value in seen || ms[i].value in Values(Picked(ms, k, left, false, seen))
    decreases |ms| - k
  {
    if ms[k].success && ms[k].value !in seen {
      var seen' := seen + {ms[k].value};
      var rest := Picked(ms, k + 1, left - 1, false, seen');
      assert Picked(ms, k, left, false, seen) == [ms[k]] + rest;
      ValuesCons(ms[k], rest);
      if i > k {
        PickedCoversValues(ms, k + 1, left - 1, seen', i);
      }
    } else if i > k {
      PickedCoversValues(ms, k + 1, left, seen, i);
    }
  }

  /** Reference definition: the first match with each raw value that is not
      in `seen`, in order. */
  function FirstOfValues(ms: seq<Match>, seen: set<string>): (r: seq<Match>)
    ensures |r| <= |ms|
    ensures forall i :: 0 <= i < |r| ==> r[i] in ms && r[i].value !in seen
  {
    if ms == [] then []
    else if ms[0].value in seen then FirstOfValues(ms[1..], seen)
    else [ms[0]] + FirstOfValues(ms[1..], seen + {ms[0].value})
  }

  /** With duplicates excluded the listed matches are the first successful
      match of each raw value not seen before, cut off at the ceiling. */
  lemma {:induction false} PickedFirstOfValues(ms: seq<Match>, k: nat, left: nat, seen: set<string>)
    requires left >= 1
    ensures Picked(ms, k, left, false, seen) == Take(FirstOfValues(Successful(ms, k), seen), left)
    decreases |ms| - k
  {
    if k < |ms| {
      var m := ms[k];
      var tail := Successful(ms, k + 1);
      assert Successful(ms, k) == (if m.success then [m] else []) + tail;
      if m.success && m.value !in seen {
        var seen' := seen + {m.value};
        assert ([m] + tail)[1..] == tail;
        assert FirstOfValues(Successful(ms, k), seen) == [m] + FirstOfValues(tail, seen');
        TakeCons(m, FirstOfValues(tail, seen'), left);
        if left > 1 {
          PickedFirstOfValues(ms, k + 1, left - 1, seen');
        } else {
          assert Take(FirstOfValues(tail, seen'), 0) == [];
          AppendNil([m]);
        }
      } else {
        PickedFirstOfValues(ms, k + 1, left, seen);
        if m.success {
          assert ([m] + tail)[1..] == tail;
        } else {
          AppendNil(tail);
        }
        assert FirstOfValues(Successful(ms, k), seen) == FirstOfValues(tail, seen);
      }
    }
  }

  /** Nothing is listed exactly when no match succeeded. */
  lemma {:induction false} PickedEmpty(ms: seq<Match>, k: nat, left: nat, incdups: bool)
    requires left >= 1
    ensures Picked(ms, k, left, incdups, {}) == [] <==> Successful(ms, k) == []
    decreases |ms| - k
  {
    if k < |ms| && !ms[k].success {
      PickedEmpty(ms, k + 1, left, incdups);
    }
  }

  /** With a non-empty delimiter the result is #N/A exactly when no match
      succeeded. */
  lemma MatchesNotApplicable(input: Option<string>, pattern: Option<string>, ms: seq<Match>,
                             replacement: Option<string>, delimiter: ExcelArg, maxMatches: Int32,
                             includeDuplicates: ExcelArg, result: (Match, string) -> string)
    requires !BadArguments(input, pattern)
    requires Delimiter(delimiter).Some? && Delimiter(delimiter).value != ""
    ensures MatchesResult(input, pattern, ms, replacement, delimiter, maxMatches, includeDuplicates, result) == NA
        <==> Successful(ms, 0) == []
  {
    var p := Picked(ms, 0, Budget(maxMatches), IncludeDuplicates(includeDuplicates), {});
    PickedEmpty(ms, 0, Budget(maxMatches), IncludeDuplicates(includeDuplicates));
    PrefixedEmpty(Emitted(p, replacement, result), Delimiter(delimiter).value);
  }

  /** With duplicates included, the result lists every successful match (the
      first `MaxMatches` of them when it is positive). */
  lemma MatchesWithDuplicates(input: Option<string>, pattern: Option<string>, ms: seq<Match>,
                              replacement: Option<string>, maxMatches: Int32,
                              includeDuplicates: ExcelArg, result: (Match, string) -> string)
    requires !BadArguments(input, pattern) && IncludeDuplicates(includeDuplicates)
    requires Successful(ms, 0) != []
    ensures MatchesResult(input, pattern, ms, replacement, Missing, maxMatches, includeDuplicates, result)
      == Text(Join(Emitted(Take(Successful(ms, 0), Budget(maxMatches)), replacement, result), ","))
  {
    PickedWithDuplicates(ms, 0, Budget(maxMatches), {});
    var toks := Emitted(Take(Successful(ms, 0), Budget(maxMatches)), replacement, result);
    PrefixedEmpty(toks, ",");
  }

  /** The duplicate key is the raw match value, not the emitted token: two
      different matches whose replacements coincide are both listed. */
  lemma DuplicateKeyIsRawValue()
    ensures var a := Match(true, "a", []);
      var b := Match(true, "b", []);
      MatchesResult(Some("ab"), Some("."), [a, b], Some("x"), Missing, 0, Bool(false), (m, rep) => "x") == Text("x,x")
  {
    var a := Match(true, "a", []);
    var b := Match(true, "b", []);
    var left := Budget(0);
    var seen: set<string> := {} + {"a"};
    assert Picked([a, b], 0, left, false, {}) == [a] + Picked([a, b], 1, left - 1, false, seen);
    assert Picked([a, b], 1, left - 1, false, seen) == [b] + Picked([a, b], 2, left - 2, false, seen + {"b"});
    assert Emitted([a, b], Some("x"), (m, rep) => "x") == ["x", "x"];
  }

  /** Two equal matches are listed once when duplicates are excluded. */
  lemma EqualMatchesListedOnce()
    ensures var a := Match(true, "a", []);
      MatchesResult(Some("aa"), Some("."), [a, a], Some("x"), Missing, 0, Bool(false), (m, rep) => "x") == Text("x")
  {
    var a := Match(true, "a", []);
    var left := Budget(0);
    var seen: set<string> := {} + {"a"};
    assert Picked([a, a], 0, left, false, {}) == [a] + Picked([a, a], 1, left - 1, false, seen);
    assert Picked([a, a], 1, left - 1, false, seen) == [];
    assert Emitted([a], Some("x"), (m, rep) => "x") == ["x"];
  }



  /** Three matches of "a" with duplicates excluded list a single "a". */
  lemma ValueScenario()
    ensures var a := Match(true, "a", []);
      MatchesResult(Some("aaa"), Some("a"), [a, a, a], None, Missing, 0, Bool(false), (m, rep) => rep) == Text("a")
  {
  }
}
