/** Reading validated values from the console. The console is modelled as the
    finite list of lines the user will type; a value comes back together with
    the number of lines it took to get it. */
module Validation {
  import opened Wrappers
  import opened Ascii
  import opened Patterns
  import opened Contacts
  import opened Prompts

  /** The stripped form of each line. */
  function StripAll(lines: seq<string>): (r: seq<string>)
    ensures |r| == |lines|
    ensures forall i {:trigger r[i]} | 0 <= i < |lines| :: r[i] == Strip(lines[i])
  {
    seq(|lines|, i requires 0 <= i < |lines| => Strip(lines[i]))
  }

  /** Stripping line by line commutes with dropping the lines already read. */
  lemma StripAllDrop(lines: seq<string>, n: nat)
    requires n <= |lines|
    ensures StripAll(lines)[n..] == StripAll(lines[n..])
  {
  }

  /** The test `regex.fullmatch` applies for a rule. */
  function Accepts(rule: Rule): string -> bool {
    (text: string) => Matches(rule, text)
  }

  /** The prompt loop: strip each line and return the first one the rule
      accepts. The lines before it were all rejected; if every line is
      rejected the input runs out and nothing is returned. */
  function ValidateEntry(rule: Rule, lines: seq<string>): (r: Option<Entered<string>>)
    ensures r.Some? ==> 0 < r.value.used <= |lines|
    ensures r.Some? ==> r.value.value == Strip(lines[r.value.used - 1])
    ensures r.Some? ==> Matches(rule, r.value.value)
    ensures r.Some? ==> forall k {:trigger Strip(lines[k])} | 0 <= k < r.value.used - 1 :: !Matches(rule, Strip(lines[k]))
    ensures r.None? ==> forall k {:trigger Strip(lines[k])} | 0 <= k < |lines| :: !Matches(rule, Strip(lines[k]))
  {
    var r := FirstAccepted(Accepts(rule), StripAll(lines));
    RejectedLines(rule, lines, r);
    r
  }

  /** The texts the generic loop rejected are the typed lines, stripped, that
      the rule rejects. */
  lemma RejectedLines(rule: Rule, lines: seq<string>, r: Option<Entered<string>>)
    requires r == FirstAccepted(Accepts(rule), StripAll(lines))
    ensures r.Some? ==> forall k {:trigger Strip(lines[k])} | 0 <= k < r.value.used - 1 :: !Matches(rule, Strip(lines[k]))
    ensures r.None? ==> forall k {:trigger Strip(lines[k])} | 0 <= k < |lines| :: !Matches(rule, Strip(lines[k]))
  {
    var texts := StripAll(lines);
    forall k | 0 <= k < |lines| && (r.None? || k < r.value.used - 1)
      ensures !Matches(rule, Strip(lines[k]))
    {
      assert texts[k] == Strip(lines[k]);
      assert !Accepts(rule)(texts[k]);
    }
  }

  /** A line the rule accepts as typed is taken at once: one line read. */
  lemma ValidateEntryFirstLine(rule: Rule, lines: seq<string>)
    requires 0 < |lines| && Matches(rule, Strip(lines[0]))
    ensures ValidateEntry(rule, lines) == Some(Entered(Strip(lines[0]), 1))
  {
    assert StripAll(lines)[0] == Strip(lines[0]);
    assert Accepts(rule)(Strip(lines[0]));
  }

  /** The value the prompt loop returns never carries whitespace at either
      end, whatever the user typed around it. */
  lemma EnteredIsStripped(rule: Rule, lines: seq<string>)
    ensures var r := ValidateEntry(rule, lines);
            r.Some? ==> Strip(r.value.value) == r.value.value
    ensures var r := ValidateEntry(rule, lines);
            r.Some? ==> r.value.value == [] || (!IsSpace(r.value.value[0]) && !IsSpace(r.value.value[|r.value.value| - 1]))
  {
  }

  /** The order in which a record's fields are prompted for, which is also
      the order of its keys. */
  const FieldRules: seq<Rule> := [Name, Age, PhoneNumber, Email, Address]

  /** The fullmatch test of each rule, in order. */
  function AcceptsEach(rules: seq<Rule>): (r: seq<string -> bool>)
    ensures |r| == |rules|
    ensures forall i | 0 <= i < |rules| :: r[i] == Accepts(rules[i])
  {
    seq(|rules|, i requires 0 <= i < |rules| => Accepts(rules[i]))
  }

  /** Prompt for one value per rule, in order, each on the lines the previous
      prompt left. */
  function ReadFields(rules: seq<Rule>, lines: seq<string>): (r: Option<Entered<seq<string>>>)
    ensures r.Some? ==> |rules| <= r.value.used <= |lines|
    ensures r.Some? ==> |r.value.value| == |rules|
    ensures r.Some? ==> forall i {:trigger r.value.value[i]} | 0 <= i < |rules| :: Matches(rules[i], r.value.value[i])
  {
    var accepts := AcceptsEach(rules);
    var r := ReadAll(accepts, StripAll(lines));
    assert r.Some? ==> forall i | 0 <= i < |rules| :: accepts[i](r.value.value[i]);
    r
  }

  /** The `i`-th field prompt, run on the lines the first `i` field prompts
      left, returns `v`. */
  ghost predicate FieldPromptGives(rules: seq<Rule>, lines: seq<string>, i: int, v: string)
  {
    0 <= i < |rules|
    && var before := ReadFields(rules[..i], lines);
    before.Some?
    && var e := ValidateEntry(rules[i], lines[before.value.used..]);
    e.Some? && e.value.value == v
  }

  /** The `k`-th field prompt finds no acceptable line among those the first
      `k` field prompts left. */
  ghost predicate FieldPromptRunsDry(rules: seq<Rule>, lines: seq<string>, k: int)
  {
    0 <= k < |rules|
    && var before := ReadFields(rules[..k], lines);
    before.Some? && ValidateEntry(rules[k], lines[before.value.used..]).None?
  }

  /** The first `i` field prompts and the `i`-th one are the generic prompt
      loops of the rules' fullmatch tests over the stripped lines. */
  lemma FieldPromptIsPrompt(rules: seq<Rule>, lines: seq<string>, i: nat)
    requires i < |rules|
    ensures ReadFields(rules[..i], lines) == ReadAll(AcceptsEach(rules)[..i], StripAll(lines))
    ensures var before := ReadFields(rules[..i], lines);
            before.Some? ==>
              ValidateEntry(rules[i], lines[before.value.used..])
              == FirstAccepted(AcceptsEach(rules)[i], StripAll(lines)[before.value.used..])
  {
    assert AcceptsEach(rules[..i]) == AcceptsEach(rules)[..i];
    var before := ReadFields(rules[..i], lines);
    if before.Some? {
      StripAllDrop(lines, before.value.used);
    }
  }

  /** The fields read so far, followed by one more `validate_entry` started
      on the line right after the last one read. */
  function NextField(before: Option<Entered<seq<string>>>, rule: Rule, lines: seq<string>): Option<Entered<seq<string>>>
    requires before.Some? ==> before.value.used <= |lines|
  {
    match before
    case None => None
    case Some(b) =>
      match ValidateEntry(rule, lines[b.used..])
      case None => None
      case Some(e) => Some(Entered(b.value + [e.value], b.used + e.used))
  }

  /** The first `k` field prompts are the generic loops of the first `k`
      rules' tests over the stripped lines. */
  lemma ReadFieldsPrefix(rules: seq<Rule>, lines: seq<string>, k: nat)
    requires k <= |rules|
    ensures ReadFields(rules[..k], lines) == ReadAll(AcceptsEach(rules)[..k], StripAll(lines))
  {
    assert AcceptsEach(rules[..k]) == AcceptsEach(rules)[..k];
  }

  /** Field prompt `i` starts on the line right after the one the field
      prompt before it accepted. */
  lemma FieldAdvances(rules: seq<Rule>, lines: seq<string>, i: nat)
    requires i < |rules|
    requires ReadAll(AcceptsEach(rules)[..i + 1], StripAll(lines))
             == Extend(ReadAll(AcceptsEach(rules)[..i], StripAll(lines)), AcceptsEach(rules)[i], StripAll(lines))
    ensures ReadFields(rules[..i + 1], lines) == NextField(ReadFields(rules[..i], lines), rules[i], lines)
  {
    ReadFieldsPrefix(rules, lines, i);
    ReadFieldsPrefix(rules, lines, i + 1);
    FieldPromptIsPrompt(rules, lines, i);
    SameNext(ReadFields(rules[..i], lines), rules[i], lines, AcceptsEach(rules)[i], StripAll(lines));
  }

  /** One more field prompt and one more generic loop agree when they agree
      on where the next value is read from. */
  lemma SameNext(before: Option<Entered<seq<string>>>, rule: Rule, lines: seq<string>, accept: string -> bool, texts: seq<string>)
    requires |texts| == |lines|
    requires before.Some? ==> before.value.used <= |lines|
    requires before.Some? ==> ValidateEntry(rule, lines[before.value.used..]) == FirstAccepted(accept, texts[before.value.used..])
    ensures Extend(before, accept, texts) == NextField(before, rule, lines)
  {
  }

  /** The field prompts run one after another with nothing skipped: none
      runs before the first line, and each starts right after the line its
      predecessor accepted. */
  lemma ReadFieldsStepByStep(rules: seq<Rule>, lines: seq<string>)
    ensures ReadFields(rules[..0], lines) == Some(Entered([], 0))
    ensures forall i | 0 <= i < |rules| :: ReadFields(rules[..i + 1], lines) == NextField(ReadFields(rules[..i], lines), rules[i], lines)
  {
    var accepts := AcceptsEach(rules);
    ReadAllStepByStep(accepts, StripAll(lines));
    ReadFieldsPrefix(rules, lines, 0);
    forall i | 0 <= i < |rules|
      ensures ReadFields(rules[..i + 1], lines) == NextField(ReadFields(rules[..i], lines), rules[i], lines)
    {
      FieldAdvances(rules, lines, i);
    }
  }

  /** Field `i` is the value the `i`-th prompt returns on the lines the
      earlier prompts left: the first line from there its rule accepts,
      stripped. */
  lemma ReadFieldsPromptByPrompt(rules: seq<Rule>, lines: seq<string>)
    ensures var r := ReadFields(rules, lines);
            r.Some? ==> forall i | 0 <= i < |rules| :: FieldPromptGives(rules, lines, i, r.value.value[i])
    ensures ReadFields(rules[..0], lines) == Some(Entered([], 0))
    ensures forall i | 0 <= i < |rules| :: ReadFields(rules[..i + 1], lines) == NextField(ReadFields(rules[..i], lines), rules[i], lines)
  {
    ReadFieldsStepByStep(rules, lines);
    var r := ReadFields(rules, lines);
    ReadAllPromptByPrompt(AcceptsEach(rules), StripAll(lines));
    if r.Some? {
      forall i | 0 <= i < |rules|
        ensures FieldPromptGives(rules, lines, i, r.value.value[i])
      {
        FieldPromptIsPrompt(rules, lines, i);
      }
    }
  }

  /** Reading the fields fails exactly when some field prompt runs dry: only
      because the input ended, never because of a rejected line. */
  lemma ReadFieldsFailsOnlyAtEnd(rules: seq<Rule>, lines: seq<string>)
    ensures ReadFields(rules, lines).None? <==> exists k :: FieldPromptRunsDry(rules, lines, k)
    ensures ReadFields(rules[..0], lines) == Some(Entered([], 0))
    ensures forall i | 0 <= i < |rules| :: ReadFields(rules[..i + 1], lines) == NextField(ReadFields(rules[..i], lines), rules[i], lines)
  {
    ReadFieldsStepByStep(rules, lines);
    var accepts := AcceptsEach(rules);
    ReadAllFailsOnlyAtEnd(accepts, StripAll(lines));
    forall k | 0 <= k < |rules|
      ensures FieldPromptRunsDry(rules, lines, k) <==> PromptRunsDry(accepts, StripAll(lines), k)
    {
      FieldPromptIsPrompt(rules, lines, k);
    }
    if ReadFields(rules, lines).None? {
      var k :| PromptRunsDry(accepts, StripAll(lines), k);
      assert FieldPromptRunsDry(rules, lines, k);
    }
  }

  /** Five values, each accepted by the rule of its key, make a valid record. */
  lemma FieldsMakeValidContact(v: seq<string>)
    requires |v| == |FieldRules|
    requires forall i | 0 <= i < |FieldRules| :: Matches(FieldRules[i], v[i])
    ensures ValidContact(FromFields(v))
  {
    assert Matches(FieldRules[0], v[0]) && Matches(FieldRules[1], v[1])
           && Matches(FieldRules[2], v[2]) && Matches(FieldRules[3], v[3])
           && Matches(FieldRules[4], v[4]);
  }

  /** Each record key names, in the rule table, the rule its field is read
      with; a record is valid exactly when each field passes the rule found
      under its key. */
  lemma ValidContactByKeys(c: Contact)
    ensures forall i | 0 <= i < |FieldKeys| :: RuleNamed(FieldKeys[i]) == Some(FieldRules[i])
    ensures ValidContact(c) <==> forall i | 0 <= i < |FieldRules| :: Matches(FieldRules[i], Fields(c)[i])
    ensures ValidContact(c) <==>
              forall i | 0 <= i < |FieldKeys| :: RuleNamed(FieldKeys[i]).Some? && Matches(RuleNamed(FieldKeys[i]).value, Fields(c)[i])
  {
    if forall i | 0 <= i < |FieldRules| :: Matches(FieldRules[i], Fields(c)[i]) {
      FieldsMakeValidContact(Fields(c));
      assert FromFields(Fields(c)) == c;
    }
    if ValidContact(c) {
      forall i | 0 <= i < |FieldRules|
        ensures Matches(FieldRules[i], Fields(c)[i])
      {
      }
    }
  }

  /** Prompt for a whole record, field by field, each under the rule its key
      names: a record read this way is valid in every field. */
  function ReadContact(lines: seq<string>): (r: Option<Entered<Contact>>)
    ensures r.Some? ==> ValidContact(r.value.value)
    ensures r.Some? ==> |FieldRules| <= r.value.used <= |lines|
    ensures r.None? <==> ReadFields(FieldRules, lines).None?
    ensures r.Some? ==> Fields(r.value.value) == ReadFields(FieldRules, lines).value.value
    ensures r.Some? ==> r.value.used == ReadFields(FieldRules, lines).value.used
  {
    match ReadFields(FieldRules, lines)
    case None => None
    case Some(f) =>
      FieldsMakeValidContact(f.value);
      Some(Entered(FromFields(f.value), f.used))
  }

  /** Five lines each accepted as typed make the record of those five lines,
      stripped, in key order. */
  lemma ReadContactCleanInput(lines: seq<string>)
    requires |FieldRules| <= |lines|
    requires forall i | 0 <= i < |FieldRules| :: Matches(FieldRules[i], Strip(lines[i]))
    ensures ReadContact(lines)
            == Some(Entered(Contact(Strip(lines[0]), Strip(lines[1]), Strip(lines[2]), Strip(lines[3]), Strip(lines[4])), 5))
  {
    var accepts := AcceptsEach(FieldRules);
    var texts := StripAll(lines);
    forall i | 0 <= i < |FieldRules|
      ensures accepts[i](texts[i])
    {
      assert accepts[i] == Accepts(FieldRules[i]);
    }
    ReadAllCleanInput(accepts, texts);
    assert ReadFields(FieldRules, lines) == Some(Entered(texts[..5], 5));
    assert FromFields(texts[..5]) == Contact(texts[0], texts[1], texts[2], texts[3], texts[4]);
  }
}
