/** Small facts about sequences that several loops share. */
module Sequences {
  function Take<T>(s: seq<T>, n: nat): seq<T> {
    if n <= |s| then s[..n] else s
  }

  lemma TakeIsPrefix<T>(taken: seq<T>, rest: seq<T>, n: nat)
    requires |taken| <= n && (rest == [] || |taken| == n)
    ensures Take(taken + rest, n) == taken
  {
  }

  lemma ConcatAssociates<T>(a: seq<T>, b: seq<T>, c: seq<T>)
    ensures (a + b) + c == a + (b + c)
  {
  }

  lemma HeadOfSlice<T>(s: seq<T>, i: nat)
    requires i < |s|
    ensures s[i..] == [s[i]] + s[i + 1..]
  {
  }

  lemma HeadOfConcat<T>(a: seq<T>, b: seq<T>)
    requires a != []
    ensures a + b == [a[0]] + (a[1..] + b)
  {
  }

  /** A loop that fills an array from the front has reached element `filled` of what it is to
      hold in the end. */
  lemma NextOf<T>(all: seq<T>, filled: nat, next: T, rest: seq<T>)
    requires filled <= |all| && all[filled..] == [next] + rest
    ensures filled < |all| && all[filled] == next && all[filled + 1..] == rest
  {
    assert all[filled..][0] == next;
    assert all[filled..][1..] == rest;
  }

  /** More places than values: two places hold the same. */
  lemma {:induction false} Pigeonhole<T>(places: seq<T>, values: seq<T>) returns (i: nat, j: nat)
    requires |places| > |values| && forall p | p in places :: p in values
    ensures i < j < |places| && places[i] == places[j]
    decreases |places|
  {
    var others, last := places[..|places| - 1], places[|places| - 1];
    if last in others {
      i :| 0 <= i < |others| && others[i] == last;
      j := |places| - 1;
    } else {
      assert last in places;
      var k :| 0 <= k < |values| && values[k] == last;
      var rest := values[..k] + values[k + 1..];
      assert forall p | p in others :: p in places;
      assert values == values[..k] + [last] + values[k + 1..];
      i, j := Pigeonhole(others, rest);
    }
  }
}
