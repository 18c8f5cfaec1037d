/** The console prompt loops, independent of what they accept: each loop
    reads lines until one passes its test. The lines are taken already
    stripped of surrounding whitespace, so each is called a text here. */
module Prompts {
  import opened Wrappers

  /** A value read from the console and the number of lines it consumed. */
  datatype Entered<T> = Entered(value: T, used: nat)

  /** The prompt loop for an arbitrary acceptance test, over lines already
      stripped: the first accepted text and the number of lines read up to
      and including it. */
  function FirstAccepted(accept: string -> bool, texts: seq<string>): (r: Option<Entered<string>>)
    ensures r.Some? ==> 0 < r.value.used <= |texts|
    ensures r.Some? ==> r.value.value == texts[r.value.used - 1]
    ensures r.Some? ==> accept(r.value.value)
    ensures r.Some? ==> forall k | 0 <= k < r.value.used - 1 :: !accept(texts[k])
    ensures r.None? ==> forall k | 0 <= k < |texts| :: !accept(texts[k])
  {
    if |texts| == 0 then None
    else if accept(texts[0]) then Some(Entered(texts[0], 1))
    else
      match FirstAccepted(accept, texts[1..])
      case None =>
        RejectedPrefix(accept, texts, |texts| - 1);
        None
      case Some(e) =>
        RejectedPrefix(accept, texts, e.used - 1);
        assert texts[e.used] == texts[1..][e.used - 1];
        Some(Entered(e.value, e.used + 1))
  }

  /** A rejected first text in front of `n` rejected texts makes `n + 1`. */
  lemma RejectedPrefix(accept: string -> bool, texts: seq<string>, n: nat)
    requires n < |texts| && !accept(texts[0])
    requires forall k | 0 <= k < n :: !accept(texts[1..][k])
    ensures forall k | 0 <= k < n + 1 :: !accept(texts[k])
  {
    forall k | 0 < k < n + 1
      ensures !accept(texts[k])
    {
      assert texts[k] == texts[1..][k - 1];
    }
  }

  /** A first value in front of the values read after it, if those were
      read. */
  function Then(e: Entered<string>, rest: Option<Entered<seq<string>>>): Option<Entered<seq<string>>> {
    match rest
    case None => None
    case Some(r) => Some(Entered([e.value] + r.value, e.used + r.used))
  }

  /** Run one prompt loop per acceptance test, in order, each on the texts
      the previous one left. */
  function ReadAll(accepts: seq<string -> bool>, texts: seq<string>): (r: Option<Entered<seq<string>>>)
    ensures r.Some? ==> |accepts| <= r.value.used <= |texts|
    ensures r.Some? ==> |r.value.value| == |accepts|
    ensures r.Some? ==> forall i {:trigger r.value.value[i]} | 0 <= i < |accepts| :: accepts[i](r.value.value[i])
  {
    if |accepts| == 0 then Some(Entered([], 0))
    else
      match FirstAccepted(accepts[0], texts)
      case None => None
      case Some(e) =>
        var rest := ReadAll(accepts[1..], texts[e.used..]);
        ThenAccepted(accepts, e, rest);
        Then(e, rest)
  }

  /** A value accepted by the first test in front of values accepted by the
      rest is accepted test by test. */
  lemma ThenAccepted(accepts: seq<string -> bool>, e: Entered<string>, rest: Option<Entered<seq<string>>>)
    requires 0 < |accepts| && accepts[0](e.value)
    requires rest.Some? ==> |rest.value.value| == |accepts| - 1
    requires rest.Some? ==> forall i | 0 <= i < |accepts| - 1 :: accepts[1..][i](rest.value.value[i])
    ensures Then(e, rest).Some? ==> |Then(e, rest).value.value| == |accepts|
    ensures Then(e, rest).Some? ==> forall i | 0 <= i < |accepts| :: accepts[i](Then(e, rest).value.value[i])
  {
    if rest.Some? {
      forall i | 1 <= i < |accepts|
        ensures accepts[i](Then(e, rest).value.value[i])
      {
        assert accepts[i] == accepts[1..][i - 1];
      }
    }
  }

  /** When each of the first `|accepts|` texts is accepted by its test, each
      value is its text and exactly one text per value is read. */
  lemma {:induction false} ReadAllCleanInput(accepts: seq<string -> bool>, texts: seq<string>)
    requires |accepts| <= |texts|
    requires forall i | 0 <= i < |accepts| :: accepts[i](texts[i])
    ensures ReadAll(accepts, texts) == Some(Entered(texts[..|accepts|], |accepts|))
    decreases |accepts|
  {
    if |accepts| > 0 {
      assert FirstAccepted(accepts[0], texts) == Some(Entered(texts[0], 1));
      forall i | 0 <= i < |accepts| - 1
        ensures accepts[1..][i](texts[1..][i])
      {
        assert accepts[1..][i] == accepts[i + 1] && texts[1..][i] == texts[i + 1];
      }
      ReadAllCleanInput(accepts[1..], texts[1..]);
      assert [texts[0]] + texts[1..][..|accepts| - 1] == texts[..|accepts|];
    }
  }

  /** Running the first `k + 1` prompt loops is one loop for the first test
      followed by the first `k` loops of the rest, on the texts it left. */
  lemma PrefixStep(accepts: seq<string -> bool>, texts: seq<string>, k: nat)
    requires k < |accepts|
    requires FirstAccepted(accepts[0], texts).Some?
    ensures var e := FirstAccepted(accepts[0], texts).value;
            ReadAll(accepts[..k + 1], texts) == Then(e, ReadAll(accepts[1..][..k], texts[e.used..]))
  {
    var front := accepts[..k + 1];
    assert front[0] == accepts[0];
    assert front[1..] == accepts[1..][..k];
  }

  /** The `i`-th prompt loop, run on the texts the first `i` loops left,
      returns `v`. */
  ghost predicate PromptGives(accepts: seq<string -> bool>, texts: seq<string>, i: int, v: string)
  {
    0 <= i < |accepts|
    && var before := ReadAll(accepts[..i], texts);
    before.Some?
    && var e := FirstAccepted(accepts[i], texts[before.value.used..]);
    e.Some? && e.value.value == v
  }

  /** The `k`-th prompt loop finds no acceptable line among those the first
      `k` loops left: the input runs out there. */
  ghost predicate PromptRunsDry(accepts: seq<string -> bool>, texts: seq<string>, k: int)
  {
    0 <= k < |accepts|
    && var before := ReadAll(accepts[..k], texts);
    before.Some? && FirstAccepted(accepts[k], texts[before.value.used..]).None?
  }

  /** After a first loop that returns `e`, the `i + 1`-th loop of all is the
      `i`-th loop of the rest on the texts `e` left. */
  lemma GivesShift(accepts: seq<string -> bool>, texts: seq<string>, i: nat, v: string)
    requires i + 1 < |accepts|
    requires FirstAccepted(accepts[0], texts).Some?
    ensures var e := FirstAccepted(accepts[0], texts).value;
            PromptGives(accepts, texts, i + 1, v) <==> PromptGives(accepts[1..], texts[e.used..], i, v)
  {
    var e := FirstAccepted(accepts[0], texts).value;
    PrefixStep(accepts, texts, i);
    assert accepts[i + 1] == accepts[1..][i];
    var before := ReadAll(accepts[1..][..i], texts[e.used..]);
    if before.Some? {
      assert texts[e.used + before.value.used..] == texts[e.used..][before.value.used..];
    }
  }

  /** The same shift for a loop that runs dry. */
  lemma DryShift(accepts: seq<string -> bool>, texts: seq<string>, i: nat)
    requires i + 1 < |accepts|
    requires FirstAccepted(accepts[0], texts).Some?
    ensures var e := FirstAccepted(accepts[0], texts).value;
            PromptRunsDry(accepts, texts, i + 1) <==> PromptRunsDry(accepts[1..], texts[e.used..], i)
  {
    var e := FirstAccepted(accepts[0], texts).value;
    PrefixStep(accepts, texts, i);
    assert accepts[i + 1] == accepts[1..][i];
    var before := ReadAll(accepts[1..][..i], texts[e.used..]);
    if before.Some? {
      assert texts[e.used + before.value.used..] == texts[e.used..][before.value.used..];
    }
  }

  /** The values read so far, followed by one more prompt loop started on
      the text right after the last one read. */
  function Extend(before: Option<Entered<seq<string>>>, accept: string -> bool, texts: seq<string>): Option<Entered<seq<string>>>
    requires before.Some? ==> before.value.used <= |texts|
  {
    match before
    case None => None
    case Some(b) =>
      match FirstAccepted(accept, texts[b.used..])
      case None => None
      case Some(e) => Some(Entered(b.value + [e.value], b.used + e.used))
  }

  /** Putting a first value in front commutes with extending by one loop. */
  lemma ThenExtend(e0: Entered<string>, rest: Option<Entered<seq<string>>>, accept: string -> bool, texts: seq<string>)
    requires e0.used <= |texts|
    requires rest.Some? ==> rest.value.used <= |texts| - e0.used
    ensures Then(e0, Extend(rest, accept, texts[e0.used..])) == Extend(Then(e0, rest), accept, texts)
  {
    if rest.Some? {
      var b := rest.value;
      assert texts[e0.used..][b.used..] == texts[e0.used + b.used..];
      var e := FirstAccepted(accept, texts[e0.used + b.used..]);
      if e.Some? {
        assert [e0.value] + (b.value + [e.value.value]) == ([e0.value] + b.value) + [e.value.value];
      }
    }
  }

  /** Loop `i` starts on the text right after the one the loop before it
      accepted. */
  lemma {:induction false} Advances(accepts: seq<string -> bool>, texts: seq<string>, i: nat)
    requires i < |accepts|
    ensures ReadAll(accepts[..i + 1], texts) == Extend(ReadAll(accepts[..i], texts), accepts[i], texts)
    decreases i
  {
    if i == 0 {
      AdvancesAtStart(accepts, texts);
    } else if FirstAccepted(accepts[0], texts).None? {
      assert accepts[..i][0] == accepts[0];
      assert accepts[..i + 1][0] == accepts[0];
    } else {
      var tail := texts[FirstAccepted(accepts[0], texts).value.used..];
      Advances(accepts[1..], tail, i - 1);
      AdvancesLater(accepts, texts, i);
    }
  }

  /** The first loop starts on the first text. */
  lemma AdvancesAtStart(accepts: seq<string -> bool>, texts: seq<string>)
    requires 0 < |accepts|
    ensures ReadAll(accepts[..1], texts) == Extend(ReadAll(accepts[..0], texts), accepts[0], texts)
  {
    assert accepts[..0] == [] && texts[0..] == texts;
    assert accepts[..1][0] == accepts[0] && accepts[..1][1..] == [];
    var e := FirstAccepted(accepts[0], texts);
    if e.Some? {
      assert [e.value.value] + [] == [] + [e.value.value];
    }
  }

  /** After a first loop that accepts a text, loop `i` advances as loop
      `i - 1` of the rest does on the texts after it. */
  lemma AdvancesLater(accepts: seq<string -> bool>, texts: seq<string>, i: nat)
    requires 0 < i < |accepts|
    requires FirstAccepted(accepts[0], texts).Some?
    requires var tail := texts[FirstAccepted(accepts[0], texts).value.used..];
             ReadAll(accepts[1..][..i], tail) == Extend(ReadAll(accepts[1..][..i - 1], tail), accepts[1..][i - 1], tail)
    ensures ReadAll(accepts[..i + 1], texts) == Extend(ReadAll(accepts[..i], texts), accepts[i], texts)
  {
    var e0 := FirstAccepted(accepts[0], texts).value;
    var tail := texts[e0.used..];
    var b := ReadAll(accepts[1..][..i - 1], tail);
    PrefixStep(accepts, texts, i);
    PrefixStep(accepts, texts, i - 1);
    assert accepts[1..][i - 1] == accepts[i];
    ThenExtend(e0, b, accepts[i], texts);
  }

  /** The loops run one after another with nothing skipped: no loop runs
      before the first, and each starts right after the text its predecessor
      accepted. */
  lemma ReadAllStepByStep(accepts: seq<string -> bool>, texts: seq<string>)
    ensures ReadAll(accepts[..0], texts) == Some(Entered([], 0))
    ensures forall i | 0 <= i < |accepts| :: ReadAll(accepts[..i + 1], texts) == Extend(ReadAll(accepts[..i], texts), accepts[i], texts)
  {
    assert accepts[..0] == [];
    forall i | 0 <= i < |accepts|
      ensures ReadAll(accepts[..i + 1], texts) == Extend(ReadAll(accepts[..i], texts), accepts[i], texts)
    {
      Advances(accepts, texts, i);
    }
  }

  /** Value `i` is what the `i`-th prompt loop returns on the texts the
      earlier loops left. */
  lemma {:induction false} ValuesPromptByPrompt(accepts: seq<string -> bool>, texts: seq<string>)
    ensures var r := ReadAll(accepts, texts);
            r.Some? ==> forall i | 0 <= i < |accepts| :: PromptGives(accepts, texts, i, r.value.value[i])
    decreases |accepts|
  {
    var r := ReadAll(accepts, texts);
    if |accepts| > 0 && r.Some? {
      var e := FirstAccepted(accepts[0], texts).value;
      var tail := texts[e.used..];
      var rest := ReadAll(accepts[1..], tail).value;
      assert r.value.value == [e.value] + rest.value;
      ValuesPromptByPrompt(accepts[1..], tail);
      assert accepts[..0] == [] && texts[0..] == texts;
      assert PromptGives(accepts, texts, 0, r.value.value[0]);
      forall i | 1 <= i < |accepts|
        ensures PromptGives(accepts, texts, i, r.value.value[i])
      {
        assert PromptGives(accepts[1..], tail, i - 1, rest.value[i - 1]);
        GivesShift(accepts, texts, i - 1, rest.value[i - 1]);
      }
    }
  }

  /** Value `i` is what the `i`-th prompt loop returns on the texts the
      earlier loops left: the first one from there its test accepts. The
      loops run one after another from the first text, each starting right
      after the text its predecessor accepted. */
  lemma ReadAllPromptByPrompt(accepts: seq<string -> bool>, texts: seq<string>)
    ensures var r := ReadAll(accepts, texts);
            r.Some? ==> forall i | 0 <= i < |accepts| :: PromptGives(accepts, texts, i, r.value.value[i])
    ensures ReadAll(accepts[..0], texts) == Some(Entered([], 0))
    ensures forall i | 0 <= i < |accepts| :: ReadAll(accepts[..i + 1], texts) == Extend(ReadAll(accepts[..i], texts), accepts[i], texts)
  {
    ValuesPromptByPrompt(accepts, texts);
    ReadAllStepByStep(accepts, texts);
  }

  /** The prompt loops fail exactly when one of them runs dry: never because
      of a text it rejected, only because the input ended first. */
  lemma {:induction false} ReadAllFailsOnlyAtEnd(accepts: seq<string -> bool>, texts: seq<string>)
    ensures ReadAll(accepts, texts).None? <==> exists k :: PromptRunsDry(accepts, texts, k)
    ensures ReadAll(accepts[..0], texts) == Some(Entered([], 0))
    ensures forall i | 0 <= i < |accepts| :: ReadAll(accepts[..i + 1], texts) == Extend(ReadAll(accepts[..i], texts), accepts[i], texts)
    decreases |accepts|
  {
    ReadAllStepByStep(accepts, texts);
    if |accepts| > 0 {
      assert accepts[..0] == [] && texts[0..] == texts;
      var e := FirstAccepted(accepts[0], texts);
      if e.None? {
        assert PromptRunsDry(accepts, texts, 0);
      } else {
        var tail := texts[e.value.used..];
        ReadAllFailsOnlyAtEnd(accepts[1..], tail);
        assert !PromptRunsDry(accepts, texts, 0);
        if ReadAll(accepts, texts).None? {
          var k :| PromptRunsDry(accepts[1..], tail, k);
          DryShift(accepts, texts, k);
        }
        if exists k :: PromptRunsDry(accepts, texts, k) {
          var k :| PromptRunsDry(accepts, texts, k);
          DryShift(accepts, texts, k - 1);
        }
      }
    }
  }
}
