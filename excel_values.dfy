/** Values crossing the spreadsheet boundary, the regex engine's match objects,
    the 32-bit countdown counters and the delimited-list serializer shared by
    the three aggregation functions of ExcelMazRegex. */
module ExcelValues {

  datatype Option<T> = None | Some(value: T)

  /** A cell argument passed as `object`: omitted, a boolean, a number, text,
      or anything else the host may hand over (an error value, an empty cell). */
  datatype ExcelArg = Missing | Bool(b: bool) | Num(n: int) | Str(s: string) | Other

  /** What a worksheet function returns: text, the #VALUE! and #N/A error
      values, or an exception raised by the function body. */
  datatype Outcome = Text(s: string) | ValueError | NA | Fault

  /** One capture group of a match, as the engine reports it. */
  datatype Group = Group(name: string, success: bool)

  /** One match; `groups[0]` is the whole-match group when present. */
  datatype Match = Match(success: bool, value: string, groups: seq<Group>)

  /** The required-argument check done first by all three aggregators:
      a null input or a null or empty pattern is #VALUE!. */
  predicate BadArguments(input: Option<string>, pattern: Option<string>)
  {
    input.None? || pattern.None? || pattern.value == ""
  }

  // ---------------------------------------------------------------------
  // C# `int` counters

  const MinInt32: int := -0x8000_0000
  const MaxInt32: int := 0x7FFF_FFFF

  type Int32 = x: int | MinInt32 <= x <= MaxInt32

  /** `--c` on a C# `int` (unchecked, so it wraps from the minimum to the maximum). */
  function Dec(c: Int32): (d: Int32)
    ensures (d + 1 - c) % 0x1_0000_0000 == 0
  {
    if c == MinInt32 then MaxInt32 else c - 1
  }

  /** The number of items that `if (--c == 0) break;` lets through when the
      counter starts at `c`: `c` itself when positive, and otherwise the
      2^32 + c decrements it takes to wrap back round to zero, which is
      never fewer than 2^31 (in effect unlimited). */
  function Budget(c: Int32): (b: nat)
    ensures 1 <= b <= 0x1_0000_0000
    ensures c > 0 ==> b == c
    ensures c <= 0 ==> b >= 0x8000_0000
  {
    if c > 0 then c else 0x1_0000_0000 + c
  }

  /** Decrementing the counter consumes exactly one item of its budget, and
      the counter reaches zero exactly when the last item was let through. */
  lemma DecBudget(c: Int32)
    ensures Dec(c) == 0 <==> Budget(c) == 1
    ensures Budget(c) > 1 ==> Budget(Dec(c)) == Budget(c) - 1
  {
  }

  function Min(a: nat, b: nat): nat { if a < b then a else b }

  // ---------------------------------------------------------------------
  // Serialization: `acc += delim + token` followed by `acc.Substring(delim.Length)`

  /** The accumulator after appending `delim + t` for every token `t`. */
  function Prefixed(toks: seq<string>, delim: string): (acc: string)
    ensures toks != [] ==> |acc| >= |delim| && acc[..|delim|] == delim
  {
    if toks == [] then "" else delim + toks[0] + Prefixed(toks[1..], delim)
  }

  /** The tokens separated by the delimiter. */
  function Join(toks: seq<string>, delim: string): (r: string)
    ensures toks != [] ==> Prefixed(toks, delim) == delim + r
    ensures |toks| == 1 ==> r == toks[0]
  {
    if toks == [] then "" else toks[0] + Prefixed(toks[1..], delim)
  }

  lemma {:induction false} PrefixedAppend(toks: seq<string>, t: string, delim: string)
    ensures Prefixed(toks + [t], delim) == Prefixed(toks, delim) + delim + t
  {
    if toks == [] {
      assert [t][1..] == [];
    } else {
      assert (toks + [t])[1..] == toks[1..] + [t];
      PrefixedAppend(toks[1..], t, delim);
    }
  }

  /** Accumulating two runs of tokens one after the other. */
  lemma {:induction false} PrefixedConcat(a: seq<string>, b: seq<string>, delim: string)
    ensures Prefixed(a + b, delim) == Prefixed(a, delim) + Prefixed(b, delim)
  {
    if a == [] {
      assert a + b == b;
    } else {
      assert (a + b)[1..] == a[1..] + b;
      PrefixedConcat(a[1..], b, delim);
    }
  }

  /** `PrefixedAppend` behind an earlier accumulator `acc`. */
  lemma PrefixedAppendTo(acc: string, toks: seq<string>, t: string, delim: string)
    ensures acc + Prefixed(toks, delim) + delim + t == acc + Prefixed(toks + [t], delim)
  {
    PrefixedAppend(toks, t, delim);
  }

  /** Stripping the leading delimiter from a non-empty accumulator yields the join. */
  lemma PrefixedStrip(toks: seq<string>, delim: string)
    requires toks != []
    ensures |Prefixed(toks, delim)| >= |delim|
    ensures Prefixed(toks, delim)[|delim|..] == Join(toks, delim)
  {
    var rest := toks[0] + Prefixed(toks[1..], delim);
    assert Prefixed(toks, delim) == delim + rest;
  }

  /** With a non-empty delimiter the accumulator is empty exactly when no token was appended. */
  lemma PrefixedEmpty(toks: seq<string>, delim: string)
    ensures delim != "" ==> (Prefixed(toks, delim) == "" <==> toks == [])
  {
    if toks != [] {
      assert |Prefixed(toks, delim)| >= |delim| by { PrefixedStrip(toks, delim); }
    }
  }

  /** The comma-separated accumulator and the final `Substring(1)`: the
      accumulator is empty iff there is no token, and otherwise stripping its
      first character leaves the join. */
  lemma Serialized(toks: seq<string>)
    ensures Prefixed(toks, ",") == "" <==> toks == []
    ensures toks != [] ==> |Prefixed(toks, ",")| >= 1 && Prefixed(toks, ",")[1..] == Join(toks, ",")
  {
    PrefixedEmpty(toks, ",");
    if toks != [] {
      PrefixedStrip(toks, ",");
    }
  }

  // ---------------------------------------------------------------------
  // Sequence vocabulary used by the contracts

  /** `sub` keeps some of the elements of `s`, in their order. */
  predicate IsSubseq<T(==)>(sub: seq<T>, s: seq<T>)
    decreases |s|
  {
    if sub == [] then true
    else if s == [] then false
    else if sub[0] == s[0] then IsSubseq(sub[1..], s[1..])
    else IsSubseq(sub, s[1..])
  }

  /** The first occurrence of each element that is not in `seen`, in order:
      what a loop keeps when it skips the elements it has already seen and
      remembers each one it keeps. */
  function Fresh<T(==)>(s: seq<T>, seen: set<T>): (r: seq<T>)
    ensures |r| <= |s|
  {
    if s == [] then []
    else if s[0] in seen then Fresh(s[1..], seen)
    else [s[0]] + Fresh(s[1..], seen + {s[0]})
  }

  function Elems<T>(s: seq<T>): (e: set<T>)
  {
    set x | x in s
  }

  lemma AppendNil<T>(s: seq<T>)
    ensures s + [] == s && [] + s == s
  {
  }

  predicate Distinct<T(==)>(s: seq<T>)
  {
    forall i, j :: 0 <= i < j < |s| ==> s[i] != s[j]
  }

  /** Prepending a fresh element to distinct elements that avoid both the
      seen set and it. */
  lemma DistinctFreshCons<T>(x: T, rest: seq<T>, seen: set<T>)
    requires x !in seen && Distinct(rest) && (forall v :: v in rest ==> v !in seen + {x})
    ensures Distinct([x] + rest) && (forall v :: v in [x] + rest ==> v !in seen)
  {
    DistinctCons(x, rest);
    forall v | v in [x] + rest ensures v !in seen {
      if v != x {
        assert v in rest;
      }
    }
  }

  lemma DistinctCons<T>(x: T, rest: seq<T>)
    requires Distinct(rest) && x !in rest
    ensures Distinct([x] + rest)
  {
    var s := [x] + rest;
    forall i, j | 0 <= i < j < |s| ensures s[i] != s[j] {
      assert s[j] == rest[j - 1];
      if i > 0 { assert s[i] == rest[i - 1]; }
    }
  }
}
