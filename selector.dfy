/**
 * `last_n_operations`: keep the records in a given state, sort them by date,
 * newest first, with Python's stable `sorted(..., reverse=True)`, and take
 * the first `n`.
 */
module Selector {
  import opened Records
  import opened PyStr

  /**
   * The records whose `state` key is present and equal to the requested
   * state, in input order (src/utils.py:29).
   */
  function Filter(data: seq<Op>, state: string): (r: seq<Op>)
    ensures forall x :: x in r <==> x in data && x.state == Some(state)
    ensures forall x :: multiset(r)[x] == if x.state == Some(state) then multiset(data)[x] else 0
  {
    if |data| == 0 then []
    else
      assert data == [data[0]] + data[1..];
      (if data[0].state == Some(state) then [data[0]] else []) + Filter(data[1..], state)
  }

  /** Every date is at most the one before it, in Python's string order. */
  predicate Descending(s: seq<Op>)
  {
    forall i, j :: 0 <= i < j < |s| ==> LexLe(s[j].date, s[i].date)
  }

  /** The records of `s` dated `d`, in the order of `s`. */
  function WithDate(s: seq<Op>, d: string): seq<Op>
  {
    if |s| == 0 then []
    else (if s[0].date == d then [s[0]] else []) + WithDate(s[1..], d)
  }

  /** `WithDate` keeps exactly the records that carry the date. */
  lemma {:induction false} WithDateMembers(s: seq<Op>, d: string)
    ensures forall x :: x in WithDate(s, d) <==> x in s && x.date == d
  {
    if |s| > 0 {
      WithDateMembers(s[1..], d);
      assert s == [s[0]] + s[1..];
    }
  }

  /** A sort is stable when, for every date, its records with that date keep their input order. */
  ghost predicate Stable(s: seq<Op>, r: seq<Op>)
  {
    forall d :: WithDate(r, d) == WithDate(s, d)
  }

  /** Places `x` before the first record of `t` whose date is not later than its own. */
  function Insert(x: Op, t: seq<Op>): (r: seq<Op>)
    ensures multiset(r) == multiset{x} + multiset(t)
  {
    if |t| == 0 then [x]
    else if LexLe(t[0].date, x.date) then [x] + t
    else
      assert t == [t[0]] + t[1..];
      [t[0]] + Insert(x, t[1..])
  }

  /** Python's stable sort by date, newest first (src/utils.py:30), as an insertion sort. */
  function SortDesc(s: seq<Op>): (r: seq<Op>)
    ensures multiset(r) == multiset(s)
  {
    if |s| == 0 then []
    else
      assert s == [s[0]] + s[1..];
      Insert(s[0], SortDesc(s[1..]))
  }

  /** The count and the state `last_n_operations` uses when its caller gives none (src/utils.py:20). */
  const DefaultCount := 5
  const DefaultState := "EXECUTED"

  /** `last_n_operations`: the matching records, newest first, cut to the first `n` (src/utils.py:20-31). */
  function LastNOperations(data: seq<Op>, n: int, state: string): (r: seq<Op>)
    ensures multiset(r) <= multiset(data)
    ensures forall i :: 0 <= i < |r| ==> r[i].state == Some(state)
  {
    var s := SortDesc(Filter(data, state));
    TakeIsPrefix(s, n);
    SortedFilterFacts(data, state);
    Take(s, n)
  }

  /** The sorted matching records all match, and hold no record more often than the input does. */
  lemma SortedFilterFacts(data: seq<Op>, state: string)
    ensures multiset(SortDesc(Filter(data, state))) <= multiset(data)
    ensures forall i :: 0 <= i < |SortDesc(Filter(data, state))| ==> SortDesc(Filter(data, state))[i].state == Some(state)
  {
    var f := Filter(data, state);
    var s := SortDesc(f);
    assert multiset(f) <= multiset(data);
    forall i | 0 <= i < |s| ensures s[i].state == Some(state) {
      assert s[i] in multiset(s);
      assert s[i] in f;
    }
  }

  // ---------------------------------------------------------------------------
  // The filter keeps input order
  // ---------------------------------------------------------------------------

  /** Filtering a concatenation filters each part and keeps them in order. */
  lemma {:induction false} FilterAppend(a: seq<Op>, b: seq<Op>, state: string)
    ensures Filter(a + b, state) == Filter(a, state) + Filter(b, state)
  {
    if |a| > 0 {
      assert (a + b)[0] == a[0];
      assert (a + b)[1..] == a[1..] + b;
      FilterAppend(a[1..], b, state);
    } else {
      assert a + b == b;
    }
  }

  /** A single record is kept exactly when its state matches. */
  lemma FilterSingle(x: Op, state: string)
    ensures Filter([x], state) == if x.state == Some(state) then [x] else []
  {
    assert [x][1..] == [];
  }

  // ---------------------------------------------------------------------------
  // The sort
  // ---------------------------------------------------------------------------

  lemma DescendingTail(s: seq<Op>)
    requires Descending(s) && |s| > 0
    ensures Descending(s[1..])
  {
    forall i, j | 0 <= i < j < |s[1..]| ensures LexLe(s[1..][j].date, s[1..][i].date) {
      assert s[1..][j] == s[j + 1] && s[1..][i] == s[i + 1];
    }
  }

  lemma DescendingCons(x: Op, t: seq<Op>)
    requires Descending(t)
    requires forall j :: 0 <= j < |t| ==> LexLe(t[j].date, x.date)
    ensures Descending([x] + t)
  {
    var s := [x] + t;
    forall i, j | 0 <= i < j < |s| ensures LexLe(s[j].date, s[i].date) {
      assert s[j] == t[j - 1];
      if i > 0 {
        assert s[i] == t[i - 1];
      }
    }
  }

  lemma {:induction false} InsertDescending(x: Op, t: seq<Op>)
    requires Descending(t)
    ensures Descending(Insert(x, t))
  {
    if |t| == 0 {
    } else if LexLe(t[0].date, x.date) {
      forall j | 0 <= j < |t| ensures LexLe(t[j].date, x.date) {
        if j > 0 {
          LexLeTransitive(t[j].date, t[0].date, x.date);
        }
      }
      DescendingCons(x, t);
    } else {
      LexLeTotal(t[0].date, x.date);
      DescendingTail(t);
      InsertDescending(x, t[1..]);
      var u := Insert(x, t[1..]);
      forall j | 0 <= j < |u| ensures LexLe(u[j].date, t[0].date) {
        assert u[j] in multiset(u);
        if u[j] != x {
          assert u[j] in multiset(t[1..]);
          var k :| 0 <= k < |t[1..]| && t[1..][k] == u[j];
          assert t[k + 1] == u[j];
        }
      }
      DescendingCons(t[0], u);
    }
  }

  /** The sort puts the dates in non-increasing order. */
  lemma {:induction false} SortDescDescending(s: seq<Op>)
    ensures Descending(SortDesc(s))
  {
    if |s| > 0 {
      SortDescDescending(s[1..]);
      InsertDescending(s[0], SortDesc(s[1..]));
    }
  }

  lemma {:induction false} WithDateAppend(a: seq<Op>, b: seq<Op>, d: string)
    ensures WithDate(a + b, d) == WithDate(a, d) + WithDate(b, d)
  {
    if |a| > 0 {
      assert (a + b)[0] == a[0];
      assert (a + b)[1..] == a[1..] + b;
      WithDateAppend(a[1..], b, d);
    } else {
      assert a + b == b;
    }
  }

  lemma WithDateSingle(y: Op, d: string)
    ensures WithDate([y], d) == if y.date == d then [y] else []
  {
    assert [y][1..] == [];
  }

  /** One step of insertion for a single date: a record passed over has another date, so the order at `d` is kept. */
  lemma WithDateKeep(y: Op, u: seq<Op>, d: string)
    requires y.date == d
    ensures WithDate([y] + u, d) == [y] + WithDate(u, d)
  {
    assert ([y] + u)[0] == y;
    assert ([y] + u)[1..] == u;
  }

  lemma WithDateSkip(y: Op, u: seq<Op>, d: string)
    requires y.date != d
    ensures WithDate([y] + u, d) == WithDate(u, d)
  {
    assert ([y] + u)[0] == y;
    assert ([y] + u)[1..] == u;
    assert [] + WithDate(u, d) == WithDate(u, d);
  }

  lemma PassOver(x: Op, y: Op, u: seq<Op>, t: seq<Op>, d: string)
    requires x.date != y.date
    requires WithDate(u, d) == WithDate([x] + t, d)
    ensures WithDate([y] + u, d) == WithDate([x] + ([y] + t), d)
  {
    var yt := [y] + t;
    if y.date == d {
      WithDateKeep(y, u, d);
      WithDateSkip(x, t, d);
      WithDateSkip(x, yt, d);
      WithDateKeep(y, t, d);
    } else {
      WithDateSkip(y, u, d);
      WithDateSkip(y, t, d);
      if x.date == d {
        WithDateKeep(x, t, d);
        WithDateKeep(x, yt, d);
      } else {
        WithDateSkip(x, t, d);
        WithDateSkip(x, yt, d);
      }
    }
  }

  lemma {:induction false} InsertStable(x: Op, t: seq<Op>)
    ensures Stable([x] + t, Insert(x, t))
  {
    if |t| > 0 && !LexLe(t[0].date, x.date) {
      LexLeReflexive(x.date);
      var t', u := t[1..], Insert(x, t[1..]);
      InsertStable(x, t');
      assert Insert(x, t) == [t[0]] + u;
      assert [t[0]] + t' == t;
      forall d ensures WithDate(Insert(x, t), d) == WithDate([x] + t, d) {
        PassOver(x, t[0], u, t', d);
      }
    }
  }

  /** Records with equal dates leave the sort in the order they entered it, as Python's sort promises. */
  lemma {:induction false} SortDescStable(s: seq<Op>)
    ensures Stable(s, SortDesc(s))
  {
    if |s| > 0 {
      SortDescStable(s[1..]);
      InsertStable(s[0], SortDesc(s[1..]));
      var t := SortDesc(s[1..]);
      assert SortDesc(s) == Insert(s[0], t);
      assert [s[0]] + s[1..] == s;
      forall d ensures WithDate(SortDesc(s), d) == WithDate(s, d) {
        if s[0].date == d {
          WithDateKeep(s[0], t, d);
          WithDateKeep(s[0], s[1..], d);
        } else {
          WithDateSkip(s[0], t, d);
          WithDateSkip(s[0], s[1..], d);
        }
      }
    }
  }

  lemma DatedSomewhere(s: seq<Op>)
    requires |s| > 0
    ensures WithDate(s, s[0].date) != []
  {
    assert WithDate(s, s[0].date)[0] == s[0];
  }

  lemma DescendingHeadIsLatest(s: seq<Op>, x: Op)
    requires Descending(s) && x in s
    ensures LexLe(x.date, s[0].date)
  {
    var i :| 0 <= i < |s| && s[i] == x;
    if i == 0 {
      LexLeReflexive(x.date);
    }
  }

  /** Two descending sequences that agree on the records of every date, in order, are equal. */
  lemma {:induction false} DescendingStableUnique(r1: seq<Op>, r2: seq<Op>)
    requires Descending(r1) && Descending(r2)
    requires forall d :: WithDate(r1, d) == WithDate(r2, d)
    ensures r1 == r2
  {
    if |r1| == 0 {
      if |r2| > 0 {
        DatedSomewhere(r2);
      }
    } else if |r2| == 0 {
      DatedSomewhere(r1);
    } else {
      var a, b := r1[0], r2[0];
      WithDateMembers(r1, b.date);
      WithDateMembers(r2, b.date);
      WithDateMembers(r1, a.date);
      WithDateMembers(r2, a.date);
      assert b in WithDate(r2, b.date);
      DescendingHeadIsLatest(r1, b);
      assert a in WithDate(r1, a.date);
      DescendingHeadIsLatest(r2, a);
      LexLeAntisymmetric(a.date, b.date);
      assert WithDate(r1, a.date)[0] == a;
      assert WithDate(r2, a.date)[0] == b;
      forall d ensures WithDate(r1[1..], d) == WithDate(r2[1..], d) {
        var p := if a.date == d then [a] else [];
        assert WithDate(r1, d) == p + WithDate(r1[1..], d);
        assert WithDate(r2, d) == p + WithDate(r2[1..], d);
        assert WithDate(r1[1..], d) == WithDate(r1, d)[|p|..];
        assert WithDate(r2[1..], d) == WithDate(r2, d)[|p|..];
      }
      DescendingTail(r1);
      DescendingTail(r2);
      DescendingStableUnique(r1[1..], r2[1..]);
      assert r1 == [a] + r1[1..] && r2 == [b] + r2[1..];
    }
  }

  /**
   * The insertion sort is THE stable descending sort: any arrangement of `s`
   * that is descending and stable is `SortDesc(s)`.
   */
  lemma SortDescIsTheStableSort(s: seq<Op>, r: seq<Op>)
    requires Descending(r) && Stable(s, r)
    ensures r == SortDesc(s)
  {
    SortDescDescending(s);
    SortDescStable(s);
    DescendingStableUnique(r, SortDesc(s));
  }

  /** Sorting what is already sorted changes nothing. */
  lemma SortDescOfDescending(s: seq<Op>)
    requires Descending(s)
    ensures SortDesc(s) == s
  {
    SortDescIsTheStableSort(s, s);
  }

  // ---------------------------------------------------------------------------
  // last_n_operations
  // ---------------------------------------------------------------------------

  /** Every selected record has its state present and equal to the requested one, and comes from the input. */
  lemma LastNSelectsState(data: seq<Op>, n: int, state: string)
    ensures forall i :: 0 <= i < |LastNOperations(data, n, state)| ==>
      LastNOperations(data, n, state)[i].state == Some(state) && LastNOperations(data, n, state)[i] in data
  {
    var f := Filter(data, state);
    var r := LastNOperations(data, n, state);
    forall i | 0 <= i < |r| ensures r[i].state == Some(state) && r[i] in data {
      assert r[i] in SortDesc(f);
      assert r[i] in multiset(SortDesc(f));
    }
  }

  /**
   * The number of records selected: `min(n, matching)` for `n >= 0`, and, as
   * Python's `[:n]` does for a negative `n`, all matching records but the last `-n`.
   */
  lemma LastNLength(data: seq<Op>, n: int, state: string)
    ensures n >= 0 ==> |LastNOperations(data, n, state)| == Min(n, |Filter(data, state)|)
    ensures n < 0 ==> |LastNOperations(data, n, state)| == Max(0, |Filter(data, state)| + n)
  {
    var f := Filter(data, state);
    assert |SortDesc(f)| == |multiset(SortDesc(f))| == |multiset(f)| == |f|;
  }

  /** A prefix of a descending sequence is descending. */
  lemma DescendingPrefix(s: seq<Op>, r: seq<Op>)
    requires Descending(s) && r <= s
    ensures Descending(r)
  {
    forall i, j | 0 <= i < j < |r| ensures LexLe(r[j].date, r[i].date) {
      assert r[i] == s[i] && r[j] == s[j];
    }
  }

  /** The selected records are newest first: adjacent dates do not increase. */
  lemma LastNDescending(data: seq<Op>, n: int, state: string)
    ensures Descending(LastNOperations(data, n, state))
    ensures forall i :: 0 < i < |LastNOperations(data, n, state)| ==>
      LexLe(LastNOperations(data, n, state)[i].date, LastNOperations(data, n, state)[i - 1].date)
  {
    var s := SortDesc(Filter(data, state));
    var r := Take(s, n);
    SortDescDescending(Filter(data, state));
    TakeIsPrefix(s, n);
    DescendingPrefix(s, r);
    forall i | 0 < i < |r| ensures LexLe(r[i].date, r[i - 1].date) {
    }
  }

  /**
   * The selection is a prefix of the stable descending sort of the matching
   * records, so it is a sub-multiset of the input.
   */
  lemma LastNIsSortedPrefix(data: seq<Op>, n: int, state: string)
    ensures LastNOperations(data, n, state) <= SortDesc(Filter(data, state))
    ensures multiset(LastNOperations(data, n, state)) <= multiset(data)
  {
    var f := Filter(data, state);
    TakeIsPrefix(SortDesc(f), n);
    assert multiset(f) <= multiset(data);
  }

  lemma WithDatePrefix(s: seq<Op>, k: nat, d: string)
    requires k <= |s|
    ensures WithDate(s[..k], d) <= WithDate(s, d)
  {
    WithDateAppend(s[..k], s[k..], d);
    assert s[..k] + s[k..] == s;
  }

  /**
   * Records with equal dates keep their input order: for each date, the
   * selected records with that date are the first matching records of that
   * date, taken from the input in input order.
   */
  lemma LastNStable(data: seq<Op>, n: int, state: string)
    ensures forall d :: WithDate(LastNOperations(data, n, state), d) <= Filter(WithDate(data, d), state)
  {
    var f := Filter(data, state);
    var s := SortDesc(f);
    var r := LastNOperations(data, n, state);
    SortDescStable(f);
    forall d ensures WithDate(r, d) <= Filter(WithDate(data, d), state) {
      WithDatePrefix(s, |r|, d);
      FilterWithDate(data, state, d);
    }
  }

  lemma FilterKeep(x: Op, u: seq<Op>, state: string)
    requires x.state == Some(state)
    ensures Filter([x] + u, state) == [x] + Filter(u, state)
  {
    assert ([x] + u)[0] == x;
    assert ([x] + u)[1..] == u;
  }

  lemma FilterSkip(x: Op, u: seq<Op>, state: string)
    requires x.state != Some(state)
    ensures Filter([x] + u, state) == Filter(u, state)
  {
    assert ([x] + u)[0] == x;
    assert ([x] + u)[1..] == u;
    assert [] + Filter(u, state) == Filter(u, state);
  }

  /** One record of the commuting step: it is kept by both selections or by neither. */
  lemma FilterWithDateCons(x: Op, t: seq<Op>, state: string, d: string)
    ensures WithDate(Filter(t, state), d) == Filter(WithDate(t, d), state) ==>
      WithDate(Filter([x] + t, state), d) == Filter(WithDate([x] + t, d), state)
  {
    if x.state == Some(state) {
      FilterKeep(x, t, state);
      if x.date == d {
        WithDateKeep(x, Filter(t, state), d);
        WithDateKeep(x, t, d);
        FilterKeep(x, WithDate(t, d), state);
      } else {
        WithDateSkip(x, Filter(t, state), d);
        WithDateSkip(x, t, d);
      }
    } else {
      FilterSkip(x, t, state);
      if x.date == d {
        WithDateKeep(x, t, d);
        FilterSkip(x, WithDate(t, d), state);
      } else {
        WithDateSkip(x, t, d);
      }
    }
  }

  /** Selecting by state and selecting by date commute, and both keep input order. */
  lemma {:induction false} FilterWithDate(s: seq<Op>, state: string, d: string)
    ensures WithDate(Filter(s, state), d) == Filter(WithDate(s, d), state)
  {
    if |s| > 0 {
      FilterWithDate(s[1..], state, d);
      FilterWithDateCons(s[0], s[1..], state, d);
      assert [s[0]] + s[1..] == s;
    }
  }

  /** With the defaults, at most five records are selected, all executed. */
  lemma DefaultSelection(data: seq<Op>)
    ensures |LastNOperations(data, DefaultCount, DefaultState)| == Min(5, |Filter(data, "EXECUTED")|)
    ensures forall i :: 0 <= i < |LastNOperations(data, DefaultCount, DefaultState)| ==>
      LastNOperations(data, DefaultCount, DefaultState)[i].state == Some("EXECUTED")
  {
    LastNLength(data, DefaultCount, DefaultState);
  }

  /** In a descending sequence, a record left out of a prefix is no newer than any record in the prefix. */
  lemma DescendingPrefixIsNewest(s: seq<Op>, r: seq<Op>)
    requires Descending(s) && r <= s
    ensures forall x: Op, i: int :: (x in multiset(s) - multiset(r) && 0 <= i < |r|) ==> LexLe(x.date, r[i].date)
  {
    assert s == r + s[|r|..];
    assert multiset(s) == multiset(r) + multiset(s[|r|..]);
    forall x: Op, i: int | x in multiset(s) - multiset(r) && 0 <= i < |r| ensures LexLe(x.date, r[i].date) {
      assert x in s[|r|..];
      var k :| 0 <= k < |s[|r|..]| && s[|r|..][k] == x;
      assert s[|r| + k] == x && s[i] == r[i];
    }
  }

  /** Every matching record that is left out is no newer than any record selected. */
  lemma LastNMostRecent(data: seq<Op>, n: int, state: string)
    ensures forall x: Op, i: int ::
      (x in multiset(Filter(data, state)) - multiset(LastNOperations(data, n, state))
       && 0 <= i < |LastNOperations(data, n, state)|) ==>
      LexLe(x.date, LastNOperations(data, n, state)[i].date)
  {
    var s := SortDesc(Filter(data, state));
    SortDescDescending(Filter(data, state));
    TakeIsPrefix(s, n);
    DescendingPrefixIsNewest(s, Take(s, n));
  }

  /** Selecting again from a selection, with the same `n >= 0` and state, returns it unchanged. */
  lemma LastNIdempotent(data: seq<Op>, n: int, state: string)
    requires n >= 0
    ensures LastNOperations(LastNOperations(data, n, state), n, state) == LastNOperations(data, n, state)
  {
    var r := LastNOperations(data, n, state);
    LastNSelectsState(data, n, state);
    FilterKeepsAllMatching(r, state);
    LastNDescending(data, n, state);
    SortDescOfDescending(r);
    assert |r| <= n;
    assert Take(r, n) == r[..|r|] == r;
  }

  lemma {:induction false} FilterKeepsAllMatching(s: seq<Op>, state: string)
    requires forall i :: 0 <= i < |s| ==> s[i].state == Some(state)
    ensures Filter(s, state) == s
  {
    if |s| > 0 {
      FilterKeepsAllMatching(s[1..], state);
      assert [s[0]] + s[1..] == s;
    }
  }
}
