/**
 * Sequence helpers shared by the GhostGrid model: the C# `List<T>` idioms the
 * tool relies on (`Contains`-guarded `Add`, `Remove`, LINQ `Aggregate`),
 * stated once with the properties the rest of the model needs.
 */
module Collections {

  datatype Option<+T> = None | Some(value: T)

  /** No element occurs twice. */
  predicate NoDuplicates<T(==)>(s: seq<T>) {
    forall i, j :: 0 <= i < j < |s| ==> s[i] != s[j]
  }

  /** `r` is `s` with some of its elements left out and the others kept in order. */
  predicate Subsequence<T(==)>(r: seq<T>, s: seq<T>)
    decreases |s|
  {
    if r == [] then true
    else if s == [] then false
    else if r[|r| - 1] == s[|s| - 1] then Subsequence(r[..|r| - 1], s[..|s| - 1])
    else Subsequence(r, s[..|s| - 1])
  }

  /** Keeping the next element of `s` extends a subsequence by it. */
  lemma SubsequenceKeep<T>(r: seq<T>, s: seq<T>, x: T)
    requires Subsequence(r, s)
    ensures Subsequence(r + [x], s + [x])
  {
    assert (r + [x])[..|r|] == r && (s + [x])[..|s|] == s;
  }

  /** Leaving out the next element of `s` keeps a subsequence that does not end with it. */
  lemma SubsequenceSkip<T>(r: seq<T>, s: seq<T>, x: T)
    requires Subsequence(r, s) && (r == [] || r[|r| - 1] != x)
    ensures Subsequence(r, s + [x])
  {
    assert (s + [x])[..|s|] == s;
  }

  lemma {:induction false} SubsequenceOfItself<T>(s: seq<T>)
    ensures Subsequence(s, s)
  {
    if s != [] {
      SubsequenceOfItself(s[..|s| - 1]);
    }
  }

  /** A subsequence is no longer than `s`, holds only its elements, and no duplicates when `s` has none. */
  lemma {:induction false} SubsequenceFacts<T>(r: seq<T>, s: seq<T>)
    requires Subsequence(r, s)
    ensures |r| <= |s|
    ensures forall x :: x in r ==> x in s
    ensures NoDuplicates(s) ==> NoDuplicates(r)
    decreases |s|
  {
    if r != [] {
      var s', y := s[..|s| - 1], s[|s| - 1];
      assert s == s' + [y];
      if r[|r| - 1] == y {
        var r' := r[..|r| - 1];
        SubsequenceFacts(r', s');
        assert r == r' + [y];
        if NoDuplicates(s) {
          assert y !in s';
          forall i, j | 0 <= i < j < |r|
            ensures r[i] != r[j]
          {
            if j == |r| - 1 {
              assert r[i] in r';
            } else {
              assert r[i] == r'[i] && r[j] == r'[j];
            }
          }
        }
      } else {
        SubsequenceFacts(r, s');
      }
    }
  }

  /** `if (!list.Contains(x)) list.Add(x);` */
  function AddIfAbsent<T(==)>(s: seq<T>, x: T): seq<T> {
    if x in s then s else s + [x]
  }

  /**
   * The result holds `x` and the elements of `s` and nothing else, extends
   * `s` by at most one element, and keeps `s` free of duplicates.
   */
  lemma AddIfAbsentFacts<T>(s: seq<T>, x: T)
    ensures forall y :: y in AddIfAbsent(s, x) <==> y in s || y == x
    ensures |s| <= |AddIfAbsent(s, x)| <= |s| + 1 && AddIfAbsent(s, x)[..|s|] == s
    ensures NoDuplicates(s) ==> NoDuplicates(AddIfAbsent(s, x))
  {
    assert (s + [x])[..|s|] == s;
  }

  /** `List.Remove(x)`: drops the first occurrence of `x`, if there is one. */
  function RemoveFirst<T(==)>(s: seq<T>, x: T): (r: seq<T>)
    ensures x in s ==> |r| == |s| - 1
    ensures x !in s ==> r == s
    ensures forall y :: y in r ==> y in s
    ensures forall y :: y in s && y != x ==> y in r
    ensures NoDuplicates(s) ==> NoDuplicates(r) && x !in r
  {
    if s == [] then []
    else
      assert NoDuplicates(s) ==> NoDuplicates(s[1..]) && s[0] !in s[1..];
      if s[0] == x then s[1..] else [s[0]] + RemoveFirst(s[1..], x)
  }

  /** `AddIfAbsent` applied to each element of `t` in turn. */
  function AppendAbsent<T(==)>(s: seq<T>, t: seq<T>): seq<T> {
    if t == [] then s else AddIfAbsent(AppendAbsent(s, t[..|t| - 1]), t[|t| - 1])
  }

  /** The result holds every element of `s` and of `t`, and nothing else. */
  lemma {:induction false} AppendAbsentMembers<T>(s: seq<T>, t: seq<T>)
    ensures forall y :: y in AppendAbsent(s, t) <==> y in s || y in t
  {
    if t != [] {
      AppendAbsentMembers(s, t[..|t| - 1]);
      assert t == t[..|t| - 1] + [t[|t| - 1]];
    }
  }

  /** The result extends `s`, and has no duplicates when `s` has none. */
  lemma {:induction false} AppendAbsentExtends<T>(s: seq<T>, t: seq<T>)
    ensures |s| <= |AppendAbsent(s, t)| && AppendAbsent(s, t)[..|s|] == s
    ensures NoDuplicates(s) ==> NoDuplicates(AppendAbsent(s, t))
  {
    if t != [] {
      AppendAbsentExtends(s, t[..|t| - 1]);
      var r0 := AppendAbsent(s, t[..|t| - 1]);
      assert r0[..|s|] == s;
      assert AppendAbsent(s, t)[..|s|] == r0[..|s|];
    }
  }

  /** `n` copies of `x`. */
  function Repeat<T>(x: T, n: nat): seq<T> {
    if n == 0 then [] else Repeat(x, n - 1) + [x]
  }

  lemma {:induction false} RepeatMembers<T>(x: T, n: nat)
    ensures forall y :: y in Repeat(x, n) <==> n > 0 && y == x
  {
    if n > 0 {
      RepeatMembers(x, n - 1);
    }
  }

  /** `t + Repeat(x, n + 1)` is `t + Repeat(x, n)` followed by `x`. */
  lemma RepeatSnoc<T>(t: seq<T>, x: T, n: nat)
    ensures t + Repeat(x, n + 1) == (t + Repeat(x, n)) + [x]
  {
  }

  /** Appending `t` one element at a time extends the fold by one step. */
  lemma AppendAbsentStep<T>(s: seq<T>, t: seq<T>, x: T)
    ensures AppendAbsent(s, t + [x]) == AddIfAbsent(AppendAbsent(s, t), x)
  {
    assert (t + [x])[..|t|] == t;
  }

  /**
   * LINQ `Aggregate((agg, next) => agg > next ? agg : next)` over numbers
   * (`<` when `greatest` is false): a left fold from the first value that
   * moves to a later value only when the accumulator does not strictly beat it.
   */
  function Extremum(xs: seq<real>, greatest: bool): real
    requires |xs| > 0
  {
    if |xs| == 1 then xs[0]
    else
      var agg := Extremum(xs[..|xs| - 1], greatest);
      var next := xs[|xs| - 1];
      if (if greatest then agg > next else agg < next) then agg else next
  }

  /** The fold returns one of the values, and none of the values lies beyond it. */
  lemma {:induction false} ExtremumIsExtreme(xs: seq<real>, greatest: bool)
    requires |xs| > 0
    ensures Extremum(xs, greatest) in xs
    ensures forall x :: x in xs ==> if greatest then x <= Extremum(xs, greatest) else Extremum(xs, greatest) <= x
  {
    if |xs| > 1 {
      ExtremumIsExtreme(xs[..|xs| - 1], greatest);
      assert xs == xs[..|xs| - 1] + [xs[|xs| - 1]];
    }
  }
}
