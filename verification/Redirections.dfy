/** Taking the redirections out of one stage of a pipeline: three passes over the same tokens
    that have to agree on what is a word, an operator and an operand. */
module Redirections {
  import opened Sequences

  // The grammar of a stage

  predicate IsRedirect(token: string) {
    token == "<" || token == ">" || token == ">>"
  }

  /** An operator takes the token behind it as its operand, whatever that is; at the end of the
      stage it has none. */
  datatype Item = Word(text: string) | Redirect(op: string, file: string) | Dangling(op: string)

  function ItemsFrom(tokens: seq<string>, i: nat): seq<Item>
    decreases |tokens| - i
  {
    if i >= |tokens| then []
    else if !IsRedirect(tokens[i]) then [Word(tokens[i])] + ItemsFrom(tokens, i + 1)
    else if i + 1 == |tokens| then [Dangling(tokens[i])]
    else [Redirect(tokens[i], tokens[i + 1])] + ItemsFrom(tokens, i + 2)
  }

  function Items(tokens: seq<string>): seq<Item> {
    ItemsFrom(tokens, 0)
  }

  function Spell(item: Item): seq<string> {
    match item
    case Word(text) => [text]
    case Redirect(op, file) => [op, file]
    case Dangling(op) => [op]
  }

  function Unparse(items: seq<Item>): seq<string> {
    if items == [] then [] else Spell(items[0]) + Unparse(items[1..])
  }

  /** What a parse may look like. */
  ghost predicate IsParse(items: seq<Item>) {
    forall i | 0 <= i < |items| ::
      match items[i]
      case Word(text) => !IsRedirect(text)
      case Redirect(op, _) => IsRedirect(op)
      case Dangling(op) => IsRedirect(op) && i == |items| - 1
  }

  /** Reading starts with the item whose spelling comes first. */
  lemma FirstItem(before: seq<string>, item: Item, behind: seq<string>)
    requires item.Word? ==> !IsRedirect(item.text)
    requires item.Redirect? ==> IsRedirect(item.op)
    requires item.Dangling? ==> IsRedirect(item.op) && behind == []
    ensures var tokens := before + Spell(item) + behind;
      ItemsFrom(tokens, |before|) == [item] + ItemsFrom(tokens, |before + Spell(item)|)
  {
    var tokens, i := before + Spell(item) + behind, |before|;
    assert tokens[i] == Spell(item)[0];
    if item.Redirect? {
      assert tokens[i + 1] == Spell(item)[1];
    } else if item.Dangling? {
      assert i + 1 == |tokens|;
    }
  }

  lemma RestIsParse(items: seq<Item>)
    requires items != [] && IsParse(items)
    ensures IsParse(items[1..]) && (items[0].Dangling? ==> items[1..] == [])
  {
    var rest := items[1..];
    assert forall i | 0 <= i < |rest| :: rest[i] == items[i + 1];
  }

  lemma {:induction false} ItemsUndoUnparse(before: seq<string>, items: seq<Item>)
    requires IsParse(items)
    ensures ItemsFrom(before + Unparse(items), |before|) == items
    decreases |items|
  {
    if items != [] {
      var spelled, rest := Spell(items[0]), items[1..];
      RestIsParse(items);
      ItemsUndoUnparse(before + spelled, rest);
      FirstItem(before, items[0], Unparse(rest));
      ConcatAssociates(before, spelled, Unparse(rest));
    }
  }

  lemma {:induction false} UnparseUndoesItems(tokens: seq<string>, i: nat)
    requires i <= |tokens|
    ensures IsParse(ItemsFrom(tokens, i)) && Unparse(ItemsFrom(tokens, i)) == tokens[i..]
    decreases |tokens| - i
  {
    if i < |tokens| {
      var items := ItemsFrom(tokens, i);
      if !IsRedirect(tokens[i]) {
        UnparseUndoesItems(tokens, i + 1);
        assert items[1..] == ItemsFrom(tokens, i + 1);
        HeadOfSlice(tokens, i);
      } else if i + 1 < |tokens| {
        UnparseUndoesItems(tokens, i + 2);
        assert items[1..] == ItemsFrom(tokens, i + 2);
        HeadOfSlice(tokens, i);
        HeadOfSlice(tokens, i + 1);
      } else {
        assert items[1..] == [];
        assert tokens[i..] == [tokens[i]];
      }
    }
  }

  /** Every token list has exactly one parse. */
  lemma ParseIsUnique(tokens: seq<string>, items: seq<Item>)
    ensures IsParse(items) && Unparse(items) == tokens <==> items == Items(tokens)
  {
    UnparseUndoesItems(tokens, 0);
    assert tokens[0..] == tokens;
    if IsParse(items) && Unparse(items) == tokens {
      ItemsUndoUnparse([], items);
      assert [] + tokens == tokens;
    }
  }

  // What the stage means

  function Words(items: seq<Item>): seq<string> {
    if items == [] then []
    else (if items[0].Word? then [items[0].text] else []) + Words(items[1..])
  }

  datatype Target = Target(op: string, file: string)

  function Redirects(items: seq<Item>): seq<Target> {
    if items == [] then []
    else (if items[0].Redirect? then [Target(items[0].op, items[0].file)] else []) + Redirects(items[1..])
  }

  datatype Redirection =
    | Nowhere
    | FromFile(name: string)
    | Truncate(name: string)
    | Append(name: string)
    | Failed(name: string)

  function AsRedirection(r: Target): Redirection {
    if r.op == "<" then FromFile(r.file) else if r.op == ">" then Truncate(r.file) else Append(r.file)
  }

  /** The redirection that is in force on one side after a series of redirects. */
  function LastOn(redirects: seq<Target>, input: bool): Redirection {
    if redirects == [] then Nowhere
    else
      var last := redirects[|redirects| - 1];
      if (last.op == "<") == input then AsRedirection(last) else LastOn(redirects[..|redirects| - 1], input)
  }

  /** One redirect more: it overrides its own side. */
  function Override(r: Target, input: Redirection, output: Redirection): (Redirection, Redirection) {
    if r.op == "<" then (AsRedirection(r), output) else (input, AsRedirection(r))
  }

  /** What overriding in order comes to. */
  function Applied(redirects: seq<Target>, input: Redirection, output: Redirection): (Redirection, Redirection) {
    if redirects == [] then (input, output)
    else
      var sides := Override(redirects[0], input, output);
      Applied(redirects[1..], sides.0, sides.1)
  }

  lemma {:induction false} AppliedIsLast(before: seq<Target>, redirects: seq<Target>)
    ensures Applied(redirects, LastOn(before, true), LastOn(before, false))
         == (LastOn(before + redirects, true), LastOn(before + redirects, false))
    decreases |redirects|
  {
    if redirects == [] {
      assert before + redirects == before;
    } else {
      assert (before + [redirects[0]])[..|before|] == before;
      AppliedIsLast(before + [redirects[0]], redirects[1..]);
      assert before + [redirects[0]] + redirects[1..] == before + redirects;
    }
  }

  /** The last redirect of a side wins, and without one there is none. */
  lemma {:induction false} LastWins(redirects: seq<Target>, input: bool, i: nat)
    requires i < |redirects| && forall k | i < k < |redirects| :: (redirects[k].op == "<") != input
    ensures (redirects[i].op == "<") == input ==> LastOn(redirects, input) == AsRedirection(redirects[i])
    ensures (redirects[i].op == "<") != input && i == 0 ==> LastOn(redirects, input) == Nowhere
    decreases |redirects|
  {
    var rest := redirects[..|redirects| - 1];
    if i < |rest| {
      LastWins(rest, input, i);
    } else if i == 0 {
      assert rest == [];
    }
  }

  /** The outcome of a stage whose k-th redirect opened its file exactly when `opens(k)`: the
      first failure is reported on its side and the other side is left alone. */
  ghost predicate Outcome(redirects: seq<Target>, opens: nat -> bool, input: Redirection, output: Redirection)
  {
    && (AllOpen(redirects, opens) ==> input == LastOn(redirects, true) && output == LastOn(redirects, false))
    && (forall k: nat | FirstFailure(redirects, opens, k) ::
          (input, output) == Blame(redirects[k]))
  }

  /** The input and the output structure after the redirect r failed. */
  function Blame(r: Target): (Redirection, Redirection) {
    if r.op == "<" then (Failed(r.file), Nowhere) else (Nowhere, Failed(r.file))
  }

  lemma FailureDecides(redirects: seq<Target>, opens: nat -> bool, k: nat, input: Redirection, output: Redirection)
    requires FirstFailure(redirects, opens, k) && (input, output) == Blame(redirects[k])
    ensures !AllOpen(redirects, opens) && Outcome(redirects, opens, input, output)
  {
    forall j: nat | FirstFailure(redirects, opens, j) ensures j == k {
      assert j < k ==> opens(j);
      assert k < j ==> opens(k);
    }
  }

  ghost predicate AllOpen(redirects: seq<Target>, opens: nat -> bool) {
    forall k | 0 <= k < |redirects| :: opens(k)
  }

  ghost predicate FirstFailure(redirects: seq<Target>, opens: nat -> bool, k: nat) {
    k < |redirects| && !opens(k) && forall j | 0 <= j < k :: opens(j)
  }

  // The stage as it is written

  /** No operator in `before` is without its operand, so what follows is read afresh. */
  ghost predicate IsClosed(before: seq<string>) {
    forall item | item in Items(before) :: !item.Dangling?
  }

  lemma {:induction false} ItemsConcat(before: seq<string>, i: nat, behind: seq<string>)
    requires i <= |before| && forall item | item in ItemsFrom(before, i) :: !item.Dangling?
    ensures ItemsFrom(before + behind, i) == ItemsFrom(before, i) + ItemsFrom(before + behind, |before|)
    decreases |before| - i
  {
    var tokens := before + behind;
    if i < |before| {
      assert tokens[i] == before[i] && ItemsFrom(before, i)[0] in ItemsFrom(before, i);
      if !IsRedirect(before[i]) {
        OneItemConcat(Word(before[i]), ItemsFrom(before, i + 1), ItemsFrom(tokens, |before|));
        ItemsConcat(before, i + 1, behind);
      } else {
        assert tokens[i + 1] == before[i + 1];
        OneItemConcat(Redirect(before[i], before[i + 1]), ItemsFrom(before, i + 2), ItemsFrom(tokens, |before|));
        ItemsConcat(before, i + 2, behind);
      }
    } else {
      assert ItemsFrom(before, i) == [];
    }
  }

  lemma OneItemConcat(item: Item, rest: seq<Item>, behind: seq<Item>)
    ensures ([item] + rest) + behind == [item] + (rest + behind)
    ensures forall other | other in rest :: other in [item] + rest
  {
  }

  /** The tokens are `behind` from position `at` on. */
  ghost predicate EndIn(tokens: seq<string>, at: nat, behind: seq<string>) {
    at + |behind| == |tokens| && forall k | 0 <= k < |behind| :: tokens[at + k] == behind[k]
  }

  ghost predicate SameItems(tokens: seq<string>, at: nat, behind: seq<string>, i: nat) {
    ItemsFrom(tokens, at + i) == ItemsFrom(behind, i)
  }

  lemma SameAtWord(tokens: seq<string>, at: nat, behind: seq<string>, i: nat)
    requires EndIn(tokens, at, behind) && i < |behind| && !IsRedirect(behind[i])
    requires SameItems(tokens, at, behind, i + 1)
    ensures SameItems(tokens, at, behind, i)
  {
    assert tokens[at + i] == behind[i];
  }

  lemma SameAtRedirect(tokens: seq<string>, at: nat, behind: seq<string>, i: nat)
    requires EndIn(tokens, at, behind) && i + 1 < |behind| && IsRedirect(behind[i])
    requires SameItems(tokens, at, behind, i + 2)
    ensures SameItems(tokens, at, behind, i)
  {
    assert tokens[at + i] == behind[i] && tokens[at + i + 1] == behind[i + 1];
  }

  lemma SameAtEnd(tokens: seq<string>, at: nat, behind: seq<string>, i: nat)
    requires EndIn(tokens, at, behind)
    requires i >= |behind| || (i + 1 == |behind| && IsRedirect(behind[i]))
    ensures SameItems(tokens, at, behind, i)
  {
    assert i < |behind| ==> tokens[at + i] == behind[i];
  }

  lemma {:induction false} ItemsOfEnd(tokens: seq<string>, at: nat, behind: seq<string>, i: nat)
    requires EndIn(tokens, at, behind)
    ensures SameItems(tokens, at, behind, i)
    decreases |behind| - i
  {
    if i < |behind| && !IsRedirect(behind[i]) {
      ItemsOfEnd(tokens, at, behind, i + 1);
      SameAtWord(tokens, at, behind, i);
    } else if i + 1 < |behind| {
      ItemsOfEnd(tokens, at, behind, i + 2);
      SameAtRedirect(tokens, at, behind, i);
    } else {
      SameAtEnd(tokens, at, behind, i);
    }
  }

  /** Reading does not look back. */
  lemma ItemsJoin(before: seq<string>, behind: seq<string>)
    requires IsClosed(before)
    ensures Items(before + behind) == Items(before) + Items(behind)
  {
    ItemsConcat(before, 0, behind);
    ItemsOfEnd(before + behind, |before|, behind, 0);
  }

  lemma ClosedJoin(before: seq<string>, behind: seq<string>)
    requires IsClosed(before) && IsClosed(behind)
    ensures IsClosed(before + behind)
  {
    ItemsJoin(before, behind);
  }

  lemma WordsFromHead(item: Item, rest: seq<Item>)
    ensures Words([item] + rest) == (if item.Word? then [item.text] else []) + Words(rest)
    ensures Redirects([item] + rest) == (if item.Redirect? then [Target(item.op, item.file)] else []) + Redirects(rest)
  {
    assert ([item] + rest)[1..] == rest;
  }

  lemma WordsOfEmpty(b: seq<Item>)
    ensures Words([] + b) == Words([]) + Words(b) && Redirects([] + b) == Redirects([]) + Redirects(b)
  {
    assert [] + b == b;
  }

  lemma {:induction false} WordsConcat(a: seq<Item>, b: seq<Item>)
    ensures Words(a + b) == Words(a) + Words(b) && Redirects(a + b) == Redirects(a) + Redirects(b)
  {
    if a == [] {
      WordsOfEmpty(b);
    } else {
      var item, rest := a[0], a[1..];
      WordsConcat(rest, b);
      HeadOfConcat(a, b);
      assert a == [item] + rest;
      WordsFromHead(item, rest);
      WordsFromHead(item, rest + b);
      ConcatAssociates(if item.Word? then [item.text] else [], Words(rest), Words(b));
      ConcatAssociates(
        if item.Redirect? then [Target(item.op, item.file)] else [], Redirects(rest), Redirects(b));
    }
  }

  lemma ItemsOfOne(op: string, file: string)
    requires op == "<" || op == ">" || op == ">>"
    ensures Items([op, file]) == [Redirect(op, file)] && IsClosed([op, file])
  {
    assert IsRedirect([op, file][0]);
    assert ItemsFrom([op, file], 2) == [];
  }

  /** A stage with an operator and its operand in the middle. The two are taken out, and what
      stands on either side is read as if it stood alone. */
  lemma RedirectInStage(before: seq<string>, op: string, file: string, behind: seq<string>)
    requires IsClosed(before) && (op == "<" || op == ">" || op == ">>")
    ensures var stage := before + ([op, file] + behind);
      && Words(Items(stage)) == Words(Items(before)) + Words(Items(behind))
      && Redirects(Items(stage)) == Redirects(Items(before)) + ([Target(op, file)] + Redirects(Items(behind)))
  {
    var rest := [op, file] + behind;
    ItemsOfOne(op, file);
    ItemsJoin(before, rest);
    ItemsJoin([op, file], behind);
    WordsConcat(Items(before), Items(rest));
    WordsFromHead(Redirect(op, file), Items(behind));
    EmptyInFront(Words(Items(behind)));
  }

  lemma EmptyInFront(words: seq<string>)
    ensures [] + words == words
  {
  }

  /** No redirect of the side on which `op` works. */
  ghost predicate OtherSide(redirects: seq<Target>, op: string) {
    forall r | r in redirects :: (r.op == "<") != (op == "<")
  }

  lemma {:induction false} LastOnSkips(redirects: seq<Target>, behind: seq<Target>, input: bool)
    requires forall r | r in behind :: (r.op == "<") != input
    ensures LastOn(redirects + behind, input) == LastOn(redirects, input)
    decreases |behind|
  {
    if behind == [] {
      assert redirects + behind == redirects;
    } else {
      var all, last := redirects + behind, behind[|behind| - 1];
      assert last in behind && all[|all| - 1] == last;
      assert all[..|all| - 1] == redirects + behind[..|behind| - 1];
      LastOnSkips(redirects, behind[..|behind| - 1], input);
    }
  }

  lemma LastOnIs(redirects: seq<Target>, r: Target, behind: seq<Target>)
    requires OtherSide(behind, r.op)
    ensures LastOn(redirects + ([r] + behind), r.op == "<") == AsRedirection(r)
  {
    assert redirects + ([r] + behind) == (redirects + [r]) + behind;
    LastOnSkips(redirects + [r], behind, r.op == "<");
    assert (redirects + [r])[|redirects|] == r;
  }

  /** What a stage's redirects leave behind if all files open: the last operator of each side
      decides, `<` for reading, `>` for truncating, `>>` for appending. */
  lemma OperatorDecides(
    before: seq<string>, op: string, file: string, behind: seq<string>, opens: nat -> bool)
    requires IsClosed(before) && (op == "<" || op == ">" || op == ">>")
    requires OtherSide(Redirects(Items(behind)), op)
    requires AllOpen(Redirects(Items(before + ([op, file] + behind))), opens)
    ensures var (input, output) := Result(Redirects(Items(before + ([op, file] + behind))), opens);
      && (op == "<" ==> input == FromFile(file))
      && (op == ">" ==> output == Truncate(file))
      && (op == ">>" ==> output == Append(file))
  {
    var redirects := Redirects(Items(before + ([op, file] + behind)));
    RedirectInStage(before, op, file, behind);
    ResultMeans(redirects, opens);
    LastOnIs(Redirects(Items(before)), Target(op, file), Redirects(Items(behind)));
    OperatorKinds(op, file);
  }

  lemma OperatorKinds(op: string, file: string)
    ensures AsRedirection(Target("<", file)) == FromFile(file)
    ensures AsRedirection(Target(">", file)) == Truncate(file)
    ensures AsRedirection(Target(">>", file)) == Append(file)
    ensures ">" != "<" && ">>" != "<" && ">>" != ">"
  {
    assert ">"[0] == '>' && "<"[0] == '<';
    assert |">>"| == 2 && |">"| == 1 && |"<"| == 1;
  }

  /** What they leave behind if this operator's file is the first that does not open. */
  lemma FirstFailureDecides(
    before: seq<string>, op: string, file: string, behind: seq<string>, opens: nat -> bool)
    requires IsClosed(before) && (op == "<" || op == ">" || op == ">>")
    requires var k := |Redirects(Items(before))|; !opens(k) && forall j | 0 <= j < k :: opens(j)
    ensures Result(Redirects(Items(before + ([op, file] + behind))), opens)
         == if op == "<" then (Failed(file), Nowhere) else (Nowhere, Failed(file))
  {
    var redirects, k := Redirects(Items(before + ([op, file] + behind))), |Redirects(Items(before))|;
    RedirectInStage(before, op, file, behind);
    assert redirects[k] == Target(op, file);
    assert FirstFailure(redirects, opens, k);
    ResultMeans(redirects, opens);
    FailureDecides(redirects, opens, k, Blame(redirects[k]).0, Blame(redirects[k]).1);
  }

  lemma {:induction false} PlainStageFrom(stage: seq<string>, i: nat)
    requires i <= |stage| && forall k | i <= k < |stage| :: !IsRedirect(stage[k])
    ensures Words(ItemsFrom(stage, i)) == stage[i..] && Redirects(ItemsFrom(stage, i)) == []
    ensures forall item | item in ItemsFrom(stage, i) :: item.Word?
    decreases |stage| - i
  {
    if i < |stage| {
      PlainStageFrom(stage, i + 1);
      AtWord(stage, i);
      HeadOfSlice(stage, i);
    }
  }

  /** A stage without the three operators is all words. */
  lemma PlainStage(stage: seq<string>)
    requires forall token | token in stage :: token != "<" && token != ">" && token != ">>"
    ensures Words(Items(stage)) == stage && Redirects(Items(stage)) == [] && IsClosed(stage)
  {
    forall k | 0 <= k < |stage| ensures !IsRedirect(stage[k]) {
      assert stage[k] in stage;
    }
    PlainStageFrom(stage, 0);
    assert stage[0..] == stage;
  }

  /** An operator at the end has no operand and is dropped. */
  lemma DanglingIsDropped(before: seq<string>, op: string)
    requires IsClosed(before) && (op == "<" || op == ">" || op == ">>")
    ensures Words(Items(before + [op])) == Words(Items(before))
    ensures Redirects(Items(before + [op])) == Redirects(Items(before))
  {
    ItemsJoin(before, [op]);
    assert Items([op]) == [Dangling(op)] && [Dangling(op)][1..] == [];
    WordsConcat(Items(before), [Dangling(op)]);
  }

  // The loops

  // How the words and the redirects from index i on follow from those behind it.

  lemma AtWord(tokens: seq<string>, i: nat)
    requires i < |tokens| && !IsRedirect(tokens[i])
    ensures Words(ItemsFrom(tokens, i)) == [tokens[i]] + Words(ItemsFrom(tokens, i + 1))
    ensures Redirects(ItemsFrom(tokens, i)) == Redirects(ItemsFrom(tokens, i + 1))
  {
    assert ItemsFrom(tokens, i)[1..] == ItemsFrom(tokens, i + 1);
  }

  lemma AtRedirect(tokens: seq<string>, i: nat)
    requires i + 1 < |tokens| && IsRedirect(tokens[i])
    ensures var redirects := Redirects(ItemsFrom(tokens, i));
      && redirects != [] && redirects[0] == Target(tokens[i], tokens[i + 1])
      && redirects[1..] == Redirects(ItemsFrom(tokens, i + 2))
    ensures Words(ItemsFrom(tokens, i)) == Words(ItemsFrom(tokens, i + 2))
  {
    assert ItemsFrom(tokens, i)[1..] == ItemsFrom(tokens, i + 2);
  }

  lemma AtDangling(tokens: seq<string>, i: nat)
    requires i + 1 == |tokens| && IsRedirect(tokens[i])
    ensures Words(ItemsFrom(tokens, i)) == [] && Redirects(ItemsFrom(tokens, i)) == []
    ensures Words(ItemsFrom(tokens, i + 1)) == [] && Redirects(ItemsFrom(tokens, i + 1)) == []
    ensures Words(ItemsFrom(tokens, i + 2)) == []
  {
    assert ItemsFrom(tokens, i)[1..] == [];
  }

  lemma SkipsOperand(tokens: seq<string>, i: nat)
    requires i < |tokens| && IsRedirect(tokens[i])
    ensures Words(ItemsFrom(tokens, i)) == Words(ItemsFrom(tokens, i + 2))
  {
    if i + 1 < |tokens| {
      AtRedirect(tokens, i);
    } else {
      AtDangling(tokens, i);
    }
  }

  /** Opening the files of the redirects in order, the next open being the k-th. */
  function Probe(redirects: seq<Target>, opens: nat -> bool, k: nat): (Redirection, Redirection) {
    if redirects == [] then (Nowhere, Nowhere)
    else if !opens(k) then Blame(redirects[0])
    else Probe(redirects[1..], opens, k + 1)
  }

  lemma {:induction false} ProbeFindsFirstFailure(redirects: seq<Target>, opens: nat -> bool, k: nat)
    requires k <= |redirects| && forall j | 0 <= j < k :: opens(j)
    ensures var sides := Probe(redirects[k..], opens, k);
      if AllOpen(redirects, opens) then sides == (Nowhere, Nowhere)
      else (sides.0.Failed? || sides.1.Failed?) && Outcome(redirects, opens, sides.0, sides.1)
    decreases |redirects| - k
  {
    if k < |redirects| {
      assert redirects[k..][1..] == redirects[k + 1..];
      if opens(k) {
        ProbeFindsFirstFailure(redirects, opens, k + 1);
      } else {
        var sides := Blame(redirects[k]);
        FailureDecides(redirects, opens, k, sides.0, sides.1);
      }
    }
  }

  /** The first pass: opens, and at once closes, the file of every redirect until one fails. */
  method ProbeFiles(tokens: seq<string>, opens: nat -> bool) returns (input: Redirection, output: Redirection)
    ensures (input, output) == Probe(Redirects(Items(tokens)), opens, 0)
  {
    input, output := Nowhere, Nowhere;
    var i, probed := 0, 0;
    while i < |tokens|
      invariant i <= |tokens| && input == Nowhere && output == Nowhere
      invariant Probe(Redirects(ItemsFrom(tokens, i)), opens, probed) == Probe(Redirects(Items(tokens)), opens, 0)
    {
      if IsRedirect(tokens[i]) {
        if i + 1 < |tokens| {
          AtRedirect(tokens, i);
          if !opens(probed) {
            var sides := Blame(Target(tokens[i], tokens[i + 1]));
            return sides.0, sides.1;
          }
          probed := probed + 1;
          i := i + 1;
        } else {
          AtDangling(tokens, i);
        }
      } else {
        AtWord(tokens, i);
      }
      i := i + 1;
    }
  }

  /** The words before index i have been copied. */
  ghost predicate Copied(words: seq<string>, tokens: seq<string>, i: nat) {
    words + Words(ItemsFrom(tokens, i)) == Words(Items(tokens))
  }

  lemma WordCopied(words: seq<string>, tokens: seq<string>, i: nat)
    requires i < |tokens| && !IsRedirect(tokens[i]) && Copied(words, tokens, i)
    ensures Copied(words + [tokens[i]], tokens, i + 1) && |words| < |Words(Items(tokens))|
  {
    AtWord(tokens, i);
  }

  lemma RedirectSkipped(words: seq<string>, tokens: seq<string>, i: nat)
    requires i < |tokens| && IsRedirect(tokens[i]) && Copied(words, tokens, i)
    ensures Copied(words, tokens, i + 2) && (i + 1 == |tokens| ==> Copied(words, tokens, i + 1))
  {
    SkipsOperand(tokens, i);
    if i + 1 == |tokens| {
      AtDangling(tokens, i);
    }
  }

  /** The words before index i have been counted. */
  ghost predicate Counted(tokens: seq<string>, i: nat, count: nat) {
    count + |Words(ItemsFrom(tokens, i))| == |Words(Items(tokens))|
  }

  lemma WordCounted(tokens: seq<string>, i: nat, count: nat)
    requires i < |tokens| && !IsRedirect(tokens[i]) && Counted(tokens, i, count)
    ensures Counted(tokens, i + 1, count + 1)
  {
    AtWord(tokens, i);
  }

  lemma RedirectNotCounted(tokens: seq<string>, i: nat, count: nat)
    requires i < |tokens| && IsRedirect(tokens[i]) && Counted(tokens, i, count)
    ensures Counted(tokens, i + 2, count)
  {
    SkipsOperand(tokens, i);
  }

  lemma AllCounted(tokens: seq<string>, i: nat, count: nat)
    requires i >= |tokens| && Counted(tokens, i, count)
    ensures count == |Words(Items(tokens))|
  {
  }

  lemma AllCopied(words: seq<string>, tokens: seq<string>, i: nat)
    requires i >= |tokens| && Copied(words, tokens, i)
    ensures words == Words(Items(tokens))
  {
  }

  /** The second pass. */
  method CountWords(tokens: seq<string>) returns (count: nat)
    ensures count == |Words(Items(tokens))|
  {
    count := 0;
    var i := 0;
    while i < |tokens|
      invariant Counted(tokens, i, count)
    {
      if IsRedirect(tokens[i]) {
        RedirectNotCounted(tokens, i, count);
        i := i + 1;
      } else {
        WordCounted(tokens, i, count);
        count := count + 1;
      }
      i := i + 1;
    }
    AllCounted(tokens, i, count);
  }

  /** The filling pass when a file did not open. */
  method CopyWords(tokens: seq<string>, words: array<string>)
    requires words.Length == |Words(Items(tokens))|
    modifies words
    ensures words[..] == Words(Items(tokens))
  {
    var i, filled := 0, 0;
    while i < |tokens|
      invariant 0 <= filled <= words.Length && Copied(words[..filled], tokens, i)
    {
      if IsRedirect(tokens[i]) {
        RedirectSkipped(words[..filled], tokens, i);
        i := i + 1;
      } else {
        filled := CopyWord(tokens, i, words, filled);
      }
      i := i + 1;
    }
    AllCopied(words[..filled], tokens, i);
  }

  /** The redirects from index i on, applied to what the two structures hold. */
  function AppliedFrom(tokens: seq<string>, i: nat, input: Redirection, output: Redirection)
    : (Redirection, Redirection)
  {
    Applied(Redirects(ItemsFrom(tokens, i)), input, output)
  }

  lemma AppliedFromNext(tokens: seq<string>, i: nat, input: Redirection, output: Redirection)
    requires i < |tokens|
    ensures !IsRedirect(tokens[i]) || i + 1 == |tokens| ==>
      AppliedFrom(tokens, i, input, output) == AppliedFrom(tokens, i + 1, input, output)
    ensures IsRedirect(tokens[i]) && i + 1 < |tokens| ==>
      var sides := Override(Target(tokens[i], tokens[i + 1]), input, output);
      AppliedFrom(tokens, i, input, output) == AppliedFrom(tokens, i + 2, sides.0, sides.1)
  {
    if !IsRedirect(tokens[i]) {
      AtWord(tokens, i);
    } else if i + 1 < |tokens| {
      AtRedirect(tokens, i);
    } else {
      AtDangling(tokens, i);
    }
  }

  /** The filling pass when all files opened: words into the array, redirects into the two
      structures, each overwriting the one before. */
  method ExtractRedirections(tokens: seq<string>, words: array<string>)
    returns (input: Redirection, output: Redirection)
    requires words.Length == |Words(Items(tokens))|
    modifies words
    ensures words[..] == Words(Items(tokens))
    ensures input == LastOn(Redirects(Items(tokens)), true)
    ensures output == LastOn(Redirects(Items(tokens)), false)
  {
    input, output := Nowhere, Nowhere;
    var i, filled := 0, 0;
    while i < |tokens|
      invariant 0 <= filled <= words.Length && 0 <= i
      invariant Extracting(words[..filled], tokens, i, input, output)
    {
      if IsRedirect(tokens[i]) {
        if i + 1 < |tokens| {
          var sides := OverrideAt(words[..filled], tokens, i, input, output);
          input, output := sides.0, sides.1;
          i := i + 1;
        } else {
          DanglingSkipped(words[..filled], tokens, i, input, output);
        }
      } else {
        filled := ExtractWord(tokens, i, words, filled, input, output);
      }
      i := i + 1;
    }
    AllExtracted(words[..filled], tokens, i, input, output);
  }

  /** The tokens before i have been dealt with. */
  ghost predicate Extracting(words: seq<string>, tokens: seq<string>, i: nat, input: Redirection, output: Redirection) {
    && Copied(words, tokens, i)
    && AppliedFrom(tokens, i, input, output) == AppliedFrom(tokens, 0, Nowhere, Nowhere)
  }

  lemma AllExtracted(words: seq<string>, tokens: seq<string>, i: nat, input: Redirection, output: Redirection)
    requires i >= |tokens| && Extracting(words, tokens, i, input, output)
    ensures words == Words(Items(tokens))
    ensures input == LastOn(Redirects(Items(tokens)), true) && output == LastOn(Redirects(Items(tokens)), false)
  {
    AllCopied(words, tokens, i);
    AppliedIsLast([], Redirects(Items(tokens)));
    assert [] + Redirects(Items(tokens)) == Redirects(Items(tokens));
  }

  /** A redirect with its operand overrides one of the structures. */
  function OverrideAt(ghost words: seq<string>, tokens: seq<string>, i: nat, input: Redirection, output: Redirection)
    : (sides: (Redirection, Redirection))
    requires i + 1 < |tokens| && IsRedirect(tokens[i]) && Extracting(words, tokens, i, input, output)
    ensures Extracting(words, tokens, i + 2, sides.0, sides.1)
  {
    AppliedFromNext(tokens, i, input, output);
    RedirectSkipped(words, tokens, i);
    Override(Target(tokens[i], tokens[i + 1]), input, output)
  }

  lemma DanglingSkipped(words: seq<string>, tokens: seq<string>, i: nat, input: Redirection, output: Redirection)
    requires i + 1 == |tokens| && IsRedirect(tokens[i]) && Extracting(words, tokens, i, input, output)
    ensures Extracting(words, tokens, i + 1, input, output)
  {
    AppliedFromNext(tokens, i, input, output);
    RedirectSkipped(words, tokens, i);
  }

  method ExtractWord(
    tokens: seq<string>, i: nat, words: array<string>, filled: nat, ghost input: Redirection, ghost output: Redirection)
    returns (next: nat)
    requires i < |tokens| && !IsRedirect(tokens[i])
    requires words.Length == |Words(Items(tokens))| && filled <= words.Length
    requires Extracting(words[..filled], tokens, i, input, output)
    modifies words
    ensures next <= words.Length && Extracting(words[..next], tokens, i + 1, input, output)
  {
    AppliedFromNext(tokens, i, input, output);
    next := CopyWord(tokens, i, words, filled);
  }

  method CopyWord(tokens: seq<string>, i: nat, words: array<string>, filled: nat) returns (next: nat)
    requires i < |tokens| && !IsRedirect(tokens[i])
    requires words.Length == |Words(Items(tokens))| && filled <= words.Length && Copied(words[..filled], tokens, i)
    modifies words
    ensures next <= words.Length && Copied(words[..next], tokens, i + 1)
  {
    ghost var before := words[..filled];
    WordCopied(before, tokens, i);
    words[filled] := tokens[i];
    next := filled + 1;
    assert words[..next] == before + [tokens[i]];
  }

  /** What the passes leave in the two structures. */
  function Result(redirects: seq<Target>, opens: nat -> bool): (Redirection, Redirection) {
    var probed := Probe(redirects, opens, 0);
    if probed == (Nowhere, Nowhere) then (LastOn(redirects, true), LastOn(redirects, false)) else probed
  }

  /** If every file opens the last redirect of each side wins; otherwise the first failure is
      reported and nothing else is. */
  lemma ResultMeans(redirects: seq<Target>, opens: nat -> bool)
    ensures Outcome(redirects, opens, Result(redirects, opens).0, Result(redirects, opens).1)
  {
    ProbeFindsFirstFailure(redirects, opens, 0);
    assert redirects[0..] == redirects;
  }

  /** All passes together. Whether or not a file opens, the words are the same and the array of
      the counted size is filled exactly. */
  method ParseRedirections(tokens: seq<string>, opens: nat -> bool)
    returns (words: seq<string>, input: Redirection, output: Redirection)
    ensures words == Words(Items(tokens))
    ensures (input, output) == Result(Redirects(Items(tokens)), opens)
  {
    input, output := ProbeFiles(tokens, opens);
    ProbeFindsFirstFailure(Redirects(Items(tokens)), opens, 0);
    assert Redirects(Items(tokens))[0..] == Redirects(Items(tokens));
    var count := CountWords(tokens);
    var cmdTokens := new string[count];
    if input.Failed? || output.Failed? {
      CopyWords(tokens, cmdTokens);
    } else {
      input, output := ExtractRedirections(tokens, cmdTokens);
    }
    words := cmdTokens[..];
  }
}
