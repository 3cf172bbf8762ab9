/** Cutting a token list at a separator token, and putting it back together. */
module Splitting {
  /** A token put in front of the first part. */
  function InFront(token: string, parts: seq<seq<string>>): seq<seq<string>>
    requires parts != []
  {
    [[token] + parts[0]] + parts[1..]
  }

  function Split(tokens: seq<string>, sep: string): (parts: seq<seq<string>>)
    ensures parts != []
  {
    if tokens == [] then [[]]
    else
      var rest := Split(tokens[1..], sep);
      if tokens[0] == sep then [[]] + rest else InFront(tokens[0], rest)
  }

  function Join(parts: seq<seq<string>>, sep: string): seq<string> {
    if parts == [] then []
    else if |parts| == 1 then parts[0]
    else parts[0] + [sep] + Join(parts[1..], sep)
  }

  function Count(tokens: seq<string>, sep: string): nat {
    if tokens == [] then 0 else (if tokens[0] == sep then 1 else 0) + Count(tokens[1..], sep)
  }

  lemma JoinWithEmpty(parts: seq<seq<string>>, sep: string)
    requires parts != []
    ensures Join([[]] + parts, sep) == [sep] + Join(parts, sep)
  {
    assert ([[]] + parts)[1..] == parts;
  }

  lemma JoinInFront(token: string, parts: seq<seq<string>>, sep: string)
    requires parts != []
    ensures Join(InFront(token, parts), sep) == [token] + Join(parts, sep)
  {
    assert InFront(token, parts)[1..] == parts[1..];
    if |parts| > 1 {
      BracketsMove([token], parts[0], [sep], Join(parts[1..], sep));
    }
  }

  lemma BracketsMove(a: seq<string>, b: seq<string>, c: seq<string>, d: seq<string>)
    ensures (a + b) + c + d == a + (b + c + d)
  {
  }

  lemma NoneInFront(token: string, parts: seq<seq<string>>, sep: string)
    requires parts != [] && token != sep && forall part | part in parts :: sep !in part
    ensures forall part | part in InFront(token, parts) :: sep !in part
  {
    assert parts[0] in parts;
  }

  /** Splitting loses nothing: the separators put back give the list again, no part holds a
      separator, and there is one part more than there are separators. */
  lemma {:induction false} SplitIsLossless(tokens: seq<string>, sep: string)
    ensures Join(Split(tokens, sep), sep) == tokens
    ensures forall part | part in Split(tokens, sep) :: sep !in part
    ensures |Split(tokens, sep)| == Count(tokens, sep) + 1
  {
    if tokens != [] {
      var rest := Split(tokens[1..], sep);
      SplitIsLossless(tokens[1..], sep);
      if tokens[0] == sep {
        JoinWithEmpty(rest, sep);
      } else {
        JoinInFront(tokens[0], rest, sep);
        NoneInFront(tokens[0], rest, sep);
      }
    }
  }

  /** A part without separators is cut off whole. */
  lemma {:induction false} SplitAfterPart(part: seq<string>, rest: seq<string>, sep: string)
    requires sep !in part
    ensures Split(part, sep) == [part]
    ensures Split(part + [sep] + rest, sep) == [part] + Split(rest, sep)
  {
    if part == [] {
      assert ([sep] + rest)[1..] == rest;
      assert part + [sep] + rest == [sep] + rest;
    } else {
      SplitAfterPart(part[1..], rest, sep);
      var all := part + [sep] + rest;
      assert all[1..] == part[1..] + [sep] + rest;
      assert [part[0]] + part[1..] == part;
    }
  }

  lemma {:induction false} SplitUndoesJoin(parts: seq<seq<string>>, sep: string)
    requires parts != [] && forall part | part in parts :: sep !in part
    ensures Split(Join(parts, sep), sep) == parts
  {
    assert parts[0] in parts;
    if |parts| == 1 {
      SplitAfterPart(parts[0], [], sep);
    } else {
      SplitUndoesJoin(parts[1..], sep);
      SplitAfterPart(parts[0], Join(parts[1..], sep), sep);
    }
  }

  /** The parts are the only separator-free lists that join to the tokens. */
  lemma SplitIsTheOnlyCut(tokens: seq<string>, sep: string, parts: seq<seq<string>>)
    ensures
      (parts != [] && Join(parts, sep) == tokens && forall part | part in parts :: sep !in part)
      <==> parts == Split(tokens, sep)
  {
    SplitIsLossless(tokens, sep);
    if parts != [] && Join(parts, sep) == tokens && forall part | part in parts :: sep !in part {
      SplitUndoesJoin(parts, sep);
    }
  }

  ghost predicate NoneBetween(tokens: seq<string>, sep: string, start: nat, i: nat) {
    forall k | start <= k < i && k < |tokens| :: tokens[k] != sep
  }

  lemma NoneYet(tokens: seq<string>, sep: string, start: nat)
    ensures NoneBetween(tokens, sep, start, start)
  {
  }

  lemma NoneSoFar(tokens: seq<string>, sep: string, start: nat, i: nat)
    requires NoneBetween(tokens, sep, start, i) && (i < |tokens| ==> tokens[i] != sep)
    ensures NoneBetween(tokens, sep, start, i + 1)
  {
  }

  /** What a scanning loop knows at the separator, or the end, it has reached. */
  lemma SplitAtIndex(tokens: seq<string>, start: nat, i: nat, sep: string)
    requires start <= i <= |tokens| && NoneBetween(tokens, sep, start, i)
    requires i == |tokens| || tokens[i] == sep
    ensures i == |tokens| ==> Split(tokens[start..], sep) == [tokens[start..i]]
    ensures i < |tokens| ==> Split(tokens[start..], sep) == [tokens[start..i]] + Split(tokens[i + 1..], sep)
  {
    if i == |tokens| {
      assert tokens[start..i] == tokens[start..];
      SplitAfterPart(tokens[start..], [], sep);
    } else {
      SplitAfterPart(tokens[start..i], tokens[i + 1..], sep);
      assert tokens[start..] == tokens[start..i] + [sep] + tokens[i + 1..];
    }
  }
}
