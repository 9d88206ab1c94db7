/** Small notions shared by every part of the model. */
module Prelude {
  datatype Option<+T> = None | Some(value: T)

  /** A closed range of dates; without an end it is open-ended. */
  datatype Interval = Interval(start: int, end: Option<int>) {
    predicate WellShaped() { end.Some? ==> start <= end.value }

    predicate Covers(date: int) { start <= date && (end.Some? ==> date <= end.value) }

    predicate Overlaps(other: Interval) {
      (other.end.Some? ==> start <= other.end.value) && (end.Some? ==> other.start <= end.value)
    }
  }

  function Max(a: real, b: real): real { if a >= b then a else b }

  function Min(a: real, b: real): real { if a <= b then a else b }

  ghost predicate NonDecreasing(s: seq<real>) {
    forall i, j | 0 <= i <= j < |s| :: s[i] <= s[j]
  }

  /** The text without the characters at either end that count as white space. */
  function Trim(s: string, space: char -> bool): (r: string)
    ensures r == "" || (!space(r[0]) && !space(r[|r| - 1]))
  {
    if s == "" then s
    else if space(s[0]) then Trim(s[1..], space)
    else if space(s[|s| - 1]) then Trim(s[..|s| - 1], space)
    else s
  }

  /** It is a piece of the text, and everything before and after it is white space. */
  lemma {:induction false} TrimCutsSpace(s: string, space: char -> bool) returns (i: nat, j: nat)
    ensures i <= j <= |s| && Trim(s, space) == s[i..j]
    ensures forall k | 0 <= k < |s| && !(i <= k < j) :: space(s[k])
  {
    i, j := 0, |s|;
    if s == "" {
      assert s[0..0] == s;
    } else if space(s[0]) {
      var i', j' := TrimCutsSpace(s[1..], space);
      i, j := i' + 1, j' + 1;
      assert s[1..][i'..j'] == s[i..j];
      assert forall k | 1 <= k < |s| :: s[1..][k - 1] == s[k];
    } else if space(s[|s| - 1]) {
      i, j := TrimCutsSpace(s[..|s| - 1], space);
      assert s[..|s| - 1][i..j] == s[i..j];
      assert forall k | 0 <= k < |s| - 1 :: s[..|s| - 1][k] == s[k];
    } else {
      assert s[0..|s|] == s;
    }
  }

  function IndexOf(s: string, c: char): (i: nat)
    ensures i <= |s| && (i < |s| ==> s[i] == c)
    ensures forall j | 0 <= j < i :: s[j] != c
  {
    if s == "" || s[0] == c then 0 else 1 + IndexOf(s[1..], c)
  }

  ghost function Between(lo: nat, end: nat): (s: set<nat>)
    ensures forall x :: x in s <==> lo <= x < end
  {
    if lo >= end then {} else Between(lo, end - 1) + {end - 1}
  }

  /** A finite set of naturals has at most as many members as its span. */
  lemma SpanOfSet(s: set<nat>) returns (lo: nat, hi: nat)
    requires s != {}
    ensures lo in s && hi in s
    ensures forall x | x in s :: lo <= x <= hi
    ensures |s| <= hi - lo + 1
  {
    hide Between;
    lo := Least(s);
    hi := Greatest(s);
    BetweenSize(lo, hi + 1);
    SubsetSize(s, Between(lo, hi + 1));
  }

  lemma {:induction false} Greatest(s: set<nat>) returns (hi: nat)
    requires s != {}
    ensures hi in s && forall x | x in s :: x <= hi
    decreases |s|
  {
    var first :| first in s;
    hi := first;
    var rest := s - {first};
    if rest != {} {
      var other := Greatest(rest);
      hi := if other > first then other else first;
    }
    forall x | x in s ensures x <= hi {
      assert x == first || x in rest;
    }
  }

  lemma Least(s: set<nat>) returns (lo: nat)
    requires s != {}
    ensures lo in s && forall x | x in s :: lo <= x
  {
    lo :| lo in s;
    while exists x :: x in s && x < lo
      invariant lo in s
      decreases lo
    {
      var x :| x in s && x < lo;
      lo := x;
    }
  }

  lemma {:induction false} SubsetSize<T>(a: set<T>, b: set<T>)
    requires a <= b
    ensures |a| <= |b|
  {
    if a != {} {
      var x :| x in a;
      SubsetSize(a - {x}, b - {x});
    }
  }

  lemma {:induction false} BetweenSize(lo: nat, end: nat)
    requires lo <= end
    ensures |Between(lo, end)| == end - lo
    decreases end
  {
    if lo < end {
      BetweenSize(lo, end - 1);
    }
  }
}
