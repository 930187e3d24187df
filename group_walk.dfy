/** The inner emission loop shared by RegexMatchGroups (over the groups of one
    match, src/ExcelMazRegex.cs:207-224) and RegexGroupMatches (over the group
    columns, src/ExcelMazRegex.cs:379-391): walk groups from a start index,
    append the name of every successful group that duplicates are allowed for
    or that is not yet seen, count the appended names down against a ceiling
    and stop once it is exhausted, and otherwise remember each appended name
    when duplicates are excluded. The `break` comes before the `Add`, so the
    name that exhausts the ceiling is not remembered. */
module GroupWalk {
  import opened ExcelValues

  datatype Walk = Walk(names: seq<string>, seen: set<string>)

  /** The walk from index `j` with `left` names still allowed (`left` is the
      `Budget` of the countdown counter). */
  function WalkNames(gs: seq<Group>, j: nat, left: nat, incdups: bool, seen: set<string>): (w: Walk)
    requires left >= 1
    ensures |w.names| <= left
    ensures seen <= w.seen
    ensures incdups ==> w.seen == seen
    decreases |gs| - j
  {
    if j >= |gs| then Walk([], seen)
    else if gs[j].success && (incdups || gs[j].name !in seen) then
      if left == 1 then Walk([gs[j].name], seen)
      else
        var rest := WalkNames(gs, j + 1, left - 1, incdups, if incdups then seen else seen + {gs[j].name});
        Walk([gs[j].name] + rest.names, rest.seen)
    else WalkNames(gs, j + 1, left, incdups, seen)
  }

  /** Reference definition: the names of the successful groups from index `j` on. */
  function SuccessNames(gs: seq<Group>, j: nat): (ns: seq<string>)
    decreases |gs| - j
  {
    if j >= |gs| then [] else (if gs[j].success then [gs[j].name] else []) + SuccessNames(gs, j + 1)
  }

  /** Every successful group from index `j0` on has its name in the reference listing. */
  lemma {:induction false} SuccessNamesHas(gs: seq<Group>, j0: nat, j: nat)
    requires j0 <= j < |gs| && gs[j].success
    ensures gs[j].name in SuccessNames(gs, j0)
    decreases j - j0
  {
    if j0 < j {
      SuccessNamesHas(gs, j0 + 1, j);
    }
  }

  function Take<T>(s: seq<T>, n: nat): (t: seq<T>)
    ensures |t| == Min(n, |s|)
  {
    if n < |s| then s[..n] else s
  }

  lemma TakeCons<T>(x: T, s: seq<T>, n: nat)
    requires n >= 1
    ensures Take([x] + s, n) == [x] + Take(s, n - 1)
  {
    if n - 1 < |s| {
      assert ([x] + s)[..n] == [x] + s[..n - 1];
    }
  }

  lemma ElemsCons<T>(x: T, s: seq<T>)
    ensures Elems([x] + s) == {x} + Elems(s)
  {
  }

  /** The walk state after appending `emitted`, continuing with `rest`. */
  function Resume(emitted: seq<string>, rest: Walk): Walk
  {
    Walk(emitted + rest.names, rest.seen)
  }

  /** Appending one listed group: either it exhausts the ceiling and the walk
      ends there, or the walk resumes after it. */
  lemma WalkEmitStep(gs: seq<Group>, j: nat, left: nat, incdups: bool, seen: set<string>, emitted: seq<string>)
    requires j < |gs| && left >= 1 && gs[j].success && (incdups || gs[j].name !in seen)
    ensures left == 1 ==>
      Resume(emitted, WalkNames(gs, j, left, incdups, seen)) == Walk(emitted + [gs[j].name], seen)
    ensures left > 1 ==>
      Resume(emitted, WalkNames(gs, j, left, incdups, seen))
      == Resume(emitted + [gs[j].name],
                WalkNames(gs, j + 1, left - 1, incdups, if incdups then seen else seen + {gs[j].name}))
  {
    if left > 1 {
      var rest := WalkNames(gs, j + 1, left - 1, incdups, if incdups then seen else seen + {gs[j].name});
      assert emitted + ([gs[j].name] + rest.names) == (emitted + [gs[j].name]) + rest.names;
    }
  }

  /** `WalkEmitStep` phrased on the `int` counter itself: after `--c` the walk
      has ended when the counter reads zero, and otherwise resumes one group on
      under the decremented counter. */
  lemma WalkCountStep(gs: seq<Group>, j: nat, c: Int32, incdups: bool, seen: set<string>,
                      emitted: seq<string>, total: Walk)
    requires j < |gs| && gs[j].success && (incdups || gs[j].name !in seen)
    requires total == Resume(emitted, WalkNames(gs, j, Budget(c), incdups, seen))
    ensures Dec(c) == 0 ==> total == Walk(emitted + [gs[j].name], seen)
    ensures Dec(c) != 0 ==>
      total == Resume(emitted + [gs[j].name],
                      WalkNames(gs, j + 1, Budget(Dec(c)), incdups, if incdups then seen else seen + {gs[j].name}))
  {
    DecBudget(c);
    WalkEmitStep(gs, j, Budget(c), incdups, seen, emitted);
  }

  /** A group that is not listed leaves the walk to the next group. */
  lemma WalkSkipStep(gs: seq<Group>, j: nat, left: nat, incdups: bool, seen: set<string>)
    requires j < |gs| && left >= 1 && !(gs[j].success && (incdups || gs[j].name !in seen))
    ensures WalkNames(gs, j, left, incdups, seen) == WalkNames(gs, j + 1, left, incdups, seen)
  {
  }

  // ---------------------------------------------------------------------
  // Subsequence facts

  lemma {:induction false} SubseqCons<T>(sub: seq<T>, x: T, s: seq<T>)
    requires IsSubseq(sub, s)
    ensures IsSubseq(sub, [x] + s)
    decreases |s|, 1
  {
    if sub != [] && sub[0] == x {
      SubseqTail(sub, s);
      assert ([x] + s)[1..] == s;
    } else if sub != [] {
      assert ([x] + s)[1..] == s;
    }
  }

  lemma {:induction false} SubseqTail<T>(sub: seq<T>, s: seq<T>)
    requires sub != [] && IsSubseq(sub, s)
    ensures IsSubseq(sub[1..], s)
    decreases |s|, 0
  {
    if sub[0] == s[0] {
      if sub[1..] != [] { SubseqCons(sub[1..], s[0], s[1..]); assert [s[0]] + s[1..] == s; }
    } else {
      SubseqTail(sub, s[1..]);
      if sub[1..] != [] { SubseqCons(sub[1..], s[0], s[1..]); assert [s[0]] + s[1..] == s; }
    }
  }

  // ---------------------------------------------------------------------
  // Properties of the walk

  /** Whatever the duplicate policy, the walk appends at most `left` names, and
      they are names of successful groups from index `j` on, in group order. */
  lemma {:induction false} WalkNamesBounded(gs: seq<Group>, j: nat, left: nat, incdups: bool, seen: set<string>)
    requires left >= 1
    ensures |WalkNames(gs, j, left, incdups, seen).names| <= left
    ensures IsSubseq(WalkNames(gs, j, left, incdups, seen).names, SuccessNames(gs, j))
    decreases |gs| - j
  {
    if j < |gs| {
      var w := WalkNames(gs, j, left, incdups, seen);
      var g := gs[j];
      var tail := SuccessNames(gs, j + 1);
      if g.success && (incdups || g.name !in seen) {
        assert SuccessNames(gs, j) == [g.name] + tail;
        if left > 1 {
          var seen' := if incdups then seen else seen + {g.name};
          WalkNamesBounded(gs, j + 1, left - 1, incdups, seen');
          assert w.names[1..] == WalkNames(gs, j + 1, left - 1, incdups, seen').names;
        } else {
          assert w.names[1..] == [];
        }
      } else {
        WalkNamesBounded(gs, j + 1, left, incdups, seen);
        if g.success {
          SubseqCons(w.names, g.name, tail);
        } else {
          assert SuccessNames(gs, j) == tail;
        }
      }
    }
  }

  /** With duplicates included the walk is exactly the first `left` successful
      names, and the seen set is left alone. */
  lemma {:induction false} WalkNamesWithDuplicates(gs: seq<Group>, j: nat, left: nat, seen: set<string>)
    requires left >= 1
    ensures WalkNames(gs, j, left, true, seen) == Walk(Take(SuccessNames(gs, j), left), seen)
    decreases |gs| - j
  {
    if j < |gs| {
      var tail := SuccessNames(gs, j + 1);
      if gs[j].success {
        assert SuccessNames(gs, j) == [gs[j].name] + tail;
        if left > 1 {
          WalkNamesWithDuplicates(gs, j + 1, left - 1, seen);
          if left - 1 < |tail| {
            assert ([gs[j].name] + tail)[..left] == [gs[j].name] + tail[..left - 1];
          }
        }
      } else {
        WalkNamesWithDuplicates(gs, j + 1, left, seen);
      }
    }
  }

  /** With duplicates excluded the appended names are pairwise distinct and
      were not seen before, and they are the first occurrences of the unseen
      successful names; the seen set only grows, by appended names. When
      the ceiling is not exhausted, the walk remembers every name it appended
      and leaves out only names that were seen: every successful name ends up
      in the seen set. */
  lemma {:induction false} WalkNamesWithoutDuplicates(gs: seq<Group>, j: nat, left: nat, seen: set<string>)
    requires left >= 1
    ensures var w := WalkNames(gs, j, left, false, seen);
      && Distinct(w.names)
      && (forall n :: n in w.names ==> n !in seen)
      && seen <= w.seen
      && (forall n :: n in w.seen ==> n in seen || n in w.names)
    ensures left > |gs| - j ==>
      var w := WalkNames(gs, j, left, false, seen);
      && (forall n :: n in w.names ==> n in w.seen)
      && (forall n :: n in SuccessNames(gs, j) ==> n in w.seen)
    ensures WalkNames(gs, j, left, false, seen).names == Take(Fresh(SuccessNames(gs, j), seen), left)
    decreases |gs| - j
  {
    assert WalkNames(gs, j, left, false, seen).names == Take(Fresh(SuccessNames(gs, j), seen), left) by {
      WalkNamesFresh(gs, j, left, seen);
    }
    if j < |gs| {
      var g := gs[j];
      var w := WalkNames(gs, j, left, false, seen);
      var tail := SuccessNames(gs, j + 1);
      assert SuccessNames(gs, j) == (if g.success then [g.name] else []) + tail;
      if g.success && g.name !in seen {
        if left > 1 {
          var seen' := seen + {g.name};
          WalkNamesWithoutDuplicates(gs, j + 1, left - 1, seen');
          var rest := WalkNames(gs, j + 1, left - 1, false, seen');
          assert w.names == [g.name] + rest.names;
          DistinctCons(g.name, rest.names);
        }
      } else {
        WalkNamesWithoutDuplicates(gs, j + 1, left, seen);
      }
    }
  }

  /** With duplicates excluded the walk lists the first occurrence of each
      successful name that was not seen before, in group order, cut off at the
      ceiling; it remembers every listed name except the one that exhausts
      the ceiling. */
  lemma {:induction false} WalkNamesFresh(gs: seq<Group>, j: nat, left: nat, seen: set<string>)
    requires left >= 1
    ensures var f := Fresh(SuccessNames(gs, j), seen);
      WalkNames(gs, j, left, false, seen) == Walk(Take(f, left), seen + Elems(Take(f, left - 1)))
    decreases |gs| - j
  {
    var f := Fresh(SuccessNames(gs, j), seen);
    if j >= |gs| {
      assert f == [];
      assert Elems(Take(f, left - 1)) == {};
    } else {
      var g := gs[j];
      var tail := SuccessNames(gs, j + 1);
      assert SuccessNames(gs, j) == (if g.success then [g.name] else []) + tail;
      if g.success && g.name !in seen {
        var seen' := seen + {g.name};
        var f' := Fresh(tail, seen');
        assert ([g.name] + tail)[1..] == tail;
        assert f == [g.name] + f';
        TakeCons(g.name, f', left);
        if left > 1 {
          var rest := WalkNames(gs, j + 1, left - 1, false, seen');
          assert WalkNames(gs, j, left, false, seen) == Walk([g.name] + rest.names, rest.seen);
          WalkNamesFresh(gs, j + 1, left - 1, seen');
          TakeCons(g.name, f', left - 1);
          ElemsCons(g.name, Take(f', left - 2));
          assert rest.seen == seen + Elems(Take(f, left - 1));
        } else {
          assert WalkNames(gs, j, left, false, seen) == Walk([g.name], seen);
          assert Take(f', 0) == [];
          AppendNil([g.name]);
          assert Elems(Take(f, 0)) == {};
        }
      } else {
        WalkNamesFresh(gs, j + 1, left, seen);
        if g.success {
          assert ([g.name] + tail)[1..] == tail;
        } else {
          AppendNil(tail);
        }
        assert f == Fresh(tail, seen);
      }
    }
  }

}
