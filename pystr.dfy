/**
 * The few Python built-ins the report utility relies on, stated over Dafny
 * sequences: slicing with clamped (and negative) bounds, `str.split` and
 * `str.join` with a one-character separator, and the code-point order in
 * which Python compares two `str` values.
 *
 * Dafny's `char` is a Unicode scalar value, so a `string` indexes code points
 * as a Python `str` does, for strings without lone surrogates (which a Python
 * `str` can hold and a Dafny `string` cannot).
 */
module PyStr {

  function Min(a: int, b: int): int { if a <= b then a else b }
  function Max(a: int, b: int): int { if a <= b then b else a }

  /** Python's normalisation of a slice bound: a negative bound counts from the end, then both clamp to [0, len]. */
  function SliceBound(i: int, len: nat): (b: nat)
    ensures b <= len
  {
    if i < 0 then Max(0, len + i) else Min(i, len)
  }

  /** `s[lo:hi]`: never fails, whatever the bounds. */
  function Slice<T>(s: seq<T>, lo: int, hi: int): (r: seq<T>)
    ensures |r| <= |s|
    ensures 0 <= lo <= hi <= |s| ==> r == s[lo..hi]
    ensures 0 <= lo && |s| <= lo ==> r == []
    ensures 0 <= lo <= |s| <= hi ==> r == s[lo..]
  {
    var a, b := SliceBound(lo, |s|), SliceBound(hi, |s|);
    if a < b then s[a..b] else []
  }

  /** `s[:n]`: the first n elements, or, for a negative n, all but the last -n. */
  function Take<T>(s: seq<T>, n: int): (r: seq<T>)
    ensures n >= 0 ==> r == s[..Min(n, |s|)]
    ensures n < 0 ==> r == s[..Max(0, |s| + n)]
  {
    Slice(s, 0, n)
  }

  /** `s[:n]` is a prefix of `s`, so it holds no element more often than `s` does. */
  lemma TakeIsPrefix<T>(s: seq<T>, n: int)
    ensures Take(s, n) <= s
    ensures multiset(Take(s, n)) <= multiset(s)
  {
    var r := Take(s, n);
    assert s == r + s[|r|..];
    assert multiset(s) == multiset(r) + multiset(s[|r|..]);
  }

  /** `s[-4:]`: the last four characters, or all of a shorter string. */
  function LastFour(s: string): (r: string)
    ensures |s| >= 4 ==> r == s[|s| - 4..]
    ensures |s| < 4 ==> r == s
  {
    Slice(s, -4, |s|)
  }

  // ---------------------------------------------------------------------------
  // str.split(sep) and sep.join(parts) for a one-character separator
  // ---------------------------------------------------------------------------

  /**
   * `s.split(sep)`: cuts at every occurrence of `sep`, keeping the empty
   * pieces between adjacent separators; the empty string gives `[""]`.
   */
  function Split(s: string, sep: char): (parts: seq<string>)
    ensures |parts| >= 1
    ensures forall i :: 0 <= i < |parts| ==> sep !in parts[i]
  {
    if |s| == 0 then [""]
    else
      var rest := Split(s[1..], sep);
      if s[0] == sep then [""] + rest
      else [[s[0]] + rest[0]] + rest[1..]
  }

  /** `sep.join(parts)`: the pieces in order, with the separator between neighbours. */
  function Join(parts: seq<string>, sep: char): (r: string)
    ensures |parts| > 0 ==> parts[0] <= r
    ensures |parts| > 1 ==> |parts[0]| < |r| && r[|parts[0]|] == sep
  {
    if |parts| == 0 then ""
    else if |parts| == 1 then parts[0]
    else parts[0] + [sep] + Join(parts[1..], sep)
  }

  lemma JoinCons(a: string, rest: seq<string>, sep: char)
    requires |rest| >= 1
    ensures Join([a] + rest, sep) == a + [sep] + Join(rest, sep)
  {
    assert ([a] + rest)[1..] == rest;
  }

  /** Joining the pieces of a split gives back the string. */
  lemma {:induction false} JoinSplit(s: string, sep: char)
    ensures Join(Split(s, sep), sep) == s
  {
    if |s| > 0 {
      var rest := Split(s[1..], sep);
      JoinSplit(s[1..], sep);
      if s[0] == sep {
        JoinCons("", rest, sep);
      } else if |rest| == 1 {
        assert Split(s, sep) == [[s[0]] + rest[0]];
      } else {
        JoinCons([s[0]] + rest[0], rest[1..], sep);
        assert rest == [rest[0]] + rest[1..];
        JoinCons(rest[0], rest[1..], sep);
      }
    }
  }

  /** A string without the separator splits into itself alone. */
  lemma {:induction false} SplitNoSeparator(a: string, sep: char)
    requires sep !in a
    ensures Split(a, sep) == [a]
  {
    if |a| > 0 {
      SplitNoSeparator(a[1..], sep);
      assert [a[0]] + a[1..] == a;
    }
  }

  /** Splitting at the first separator: the piece before it, then the split of the rest. */
  lemma {:induction false} SplitAtFirst(a: string, b: string, sep: char)
    requires sep !in a
    ensures Split(a + [sep] + b, sep) == [a] + Split(b, sep)
  {
    var s := a + [sep] + b;
    if |a| == 0 {
      assert s[1..] == b;
    } else {
      assert s[1..] == a[1..] + [sep] + b;
      SplitAtFirst(a[1..], b, sep);
      assert [a[0]] + a[1..] == a;
    }
  }

  /** Splitting a join of separator-free pieces gives back the pieces. */
  lemma {:induction false} SplitJoin(parts: seq<string>, sep: char)
    requires |parts| >= 1
    requires forall i :: 0 <= i < |parts| ==> sep !in parts[i]
    ensures Split(Join(parts, sep), sep) == parts
  {
    if |parts| == 1 {
      SplitNoSeparator(parts[0], sep);
    } else {
      SplitJoin(parts[1..], sep);
      SplitAtFirst(parts[0], Join(parts[1..], sep), sep);
      assert [parts[0]] + parts[1..] == parts;
    }
  }

  /** A string holds the separator exactly when it splits into more than one piece. */
  lemma {:induction false} SplitMoreThanOne(s: string, sep: char)
    ensures sep in s <==> |Split(s, sep)| > 1
  {
    if |s| > 0 {
      SplitMoreThanOne(s[1..], sep);
      assert sep in s <==> s[0] == sep || sep in s[1..] by {
        assert s == [s[0]] + s[1..];
      }
    }
  }

  /** Joining all pieces but the last, then the separator and the last piece, is joining them all. */
  lemma {:induction false} JoinSnoc(parts: seq<string>, sep: char)
    requires |parts| >= 2
    ensures Join(parts[..|parts| - 1], sep) + [sep] + parts[|parts| - 1] == Join(parts, sep)
  {
    var k := |parts|;
    if k > 2 {
      JoinSnoc(parts[1..], sep);
      assert parts[1..][..k - 2] == parts[..k - 1][1..];
      JoinCons(parts[0], parts[..k - 1][1..], sep);
      assert [parts[0]] + parts[..k - 1][1..] == parts[..k - 1];
    }
  }

  /**
   * The first piece of a split is `w` (a separator-free word) exactly when the
   * string is `w` itself or starts with `w` followed by the separator.
   */
  lemma {:induction false} FirstPiece(s: string, w: string, sep: char)
    requires sep !in w
    ensures Split(s, sep)[0] == w <==> s == w || (|s| > |w| && s[..|w| + 1] == w + [sep])
  {
    if |s| > 0 && s[0] != sep {
      if |w| > 0 && w[0] == s[0] {
        FirstPiece(s[1..], w[1..], sep);
        assert s == [s[0]] + s[1..];
        assert w == [w[0]] + w[1..];
        if |s| > |w| {
          assert s[..|w| + 1] == [s[0]] + s[1..][..|w[1..]| + 1];
        }
      } else if |w| > 0 {
        assert Split(s, sep)[0][0] == s[0];
      }
    } else if |s| > 0 {
      if |w| > 0 {
        assert s[0] !in w;
        if |s| > |w| {
          assert s[..|w| + 1][0] == s[0];
        }
      }
    }
  }

  // ---------------------------------------------------------------------------
  // Python's comparison of two str values
  // ---------------------------------------------------------------------------

  /** `a <= b` on Python strings: lexicographic by code point, a proper prefix before its extensions. */
  predicate LexLe(a: string, b: string)
    decreases |a|
  {
    |a| == 0 || (|b| > 0 && (a[0] < b[0] || (a[0] == b[0] && LexLe(a[1..], b[1..]))))
  }

  /** The textbook definition: `a` is a prefix of `b`, or they first differ at a smaller code point of `a`. */
  ghost predicate LexLeByFirstDifference(a: string, b: string)
  {
    a <= b || exists k :: 0 <= k < |a| && k < |b| && a[..k] == b[..k] && a[k] < b[k]
  }

  lemma {:induction false} LexLeMatchesFirstDifference(a: string, b: string)
    ensures LexLe(a, b) <==> LexLeByFirstDifference(a, b)
  {
    if LexLe(a, b) {
      LexLeHasFirstDifference(a, b);
    }
    if LexLeByFirstDifference(a, b) {
      FirstDifferenceIsLexLe(a, b);
    }
  }

  lemma {:induction false} LexLeHasFirstDifference(a: string, b: string)
    requires LexLe(a, b)
    ensures LexLeByFirstDifference(a, b)
  {
    if |a| > 0 {
      if a[0] < b[0] {
        assert a[..0] == b[..0];
      } else {
        LexLeHasFirstDifference(a[1..], b[1..]);
        if a[1..] <= b[1..] {
          assert a == [a[0]] + a[1..] && b[..|a|] == [b[0]] + b[1..][..|a| - 1];
        } else {
          var k :| 0 <= k < |a[1..]| && k < |b[1..]| && a[1..][..k] == b[1..][..k] && a[1..][k] < b[1..][k];
          assert a[..k + 1] == [a[0]] + a[1..][..k];
          assert b[..k + 1] == [b[0]] + b[1..][..k];
        }
      }
    }
  }

  lemma {:induction false} FirstDifferenceIsLexLe(a: string, b: string)
    requires LexLeByFirstDifference(a, b)
    ensures LexLe(a, b)
  {
    if |a| > 0 {
      if a <= b {
        assert a[1..] <= b[1..];
        FirstDifferenceIsLexLe(a[1..], b[1..]);
      } else {
        var k :| 0 <= k < |a| && k < |b| && a[..k] == b[..k] && a[k] < b[k];
        if k > 0 {
          assert a[..k][0] == b[..k][0];
          assert a[1..][..k - 1] == a[..k][1..] && b[1..][..k - 1] == b[..k][1..];
          assert LexLeByFirstDifference(a[1..], b[1..]);
          FirstDifferenceIsLexLe(a[1..], b[1..]);
        }
      }
    }
  }

  lemma {:induction false} LexLeReflexive(a: string)
    ensures LexLe(a, a)
  {
    if |a| > 0 {
      LexLeReflexive(a[1..]);
    }
  }

  lemma {:induction false} LexLeAntisymmetric(a: string, b: string)
    requires LexLe(a, b) && LexLe(b, a)
    ensures a == b
  {
    if |a| > 0 {
      LexLeAntisymmetric(a[1..], b[1..]);
      assert a == [a[0]] + a[1..] && b == [b[0]] + b[1..];
    }
  }

  lemma {:induction false} LexLeTransitive(a: string, b: string, c: string)
    requires LexLe(a, b) && LexLe(b, c)
    ensures LexLe(a, c)
  {
    if |a| > 0 && a[0] == b[0] && b[0] == c[0] {
      LexLeTransitive(a[1..], b[1..], c[1..]);
    }
  }

  lemma {:induction false} LexLeTotal(a: string, b: string)
    ensures LexLe(a, b) || LexLe(b, a)
  {
    if |a| > 0 && |b| > 0 && a[0] == b[0] {
      LexLeTotal(a[1..], b[1..]);
    }
  }
}
