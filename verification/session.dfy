/** The interactive session: the menu, the five features driven by the lines
    the user types, and the loop that runs them until the user exits or the
    input runs out. Console text is modelled as a `Report` per feature, and a
    write of the contacts file as a snapshot of the store in the session's
    list of saves. */
module Session {
  import opened Wrappers
  import opened Ascii
  import opened Patterns
  import opened Contacts
  import opened Validation
  import opened Prompts

  /** One entry per menu item. */
  datatype Command = AddCmd | DeleteCmd | SearchCmd | UpdateCmd | ListCmd | ExitCmd

  /** What a feature tells the user. */
  datatype Report =
    | Added
    | Deleted
    | NoSuchPhone
    | Found(matches: seq<Contact>)
    | NoResults
    | Updated
    | Shown(listing: Listing)
    | Goodbye

  /** A feature's effect: the new store, whether it was saved, what was
      shown, and how many input lines it read. */
  datatype Done = Done(outcome: Outcome, report: Report, used: nat)

  /** One pass of the menu loop. */
  datatype Step = Step(command: Command, done: Done)

  /** A whole session: the final store, every snapshot written to disk in
      order, the reports shown, and whether it ended by the exit item. */
  datatype Run = Run(store: seq<Contact>, saves: seq<seq<Contact>>, reports: seq<Report>, exited: bool)

  /** The key of each item in the dispatch table. */
  function ChoiceKey(cmd: Command): (k: string)
    ensures Matches(Menu, k)
  {
    match cmd
    case AddCmd => "1"
    case DeleteCmd => "2"
    case SearchCmd => "3"
    case UpdateCmd => "4"
    case ListCmd => "5"
    case ExitCmd => "6"
  }

  /** The dispatch-table lookup. It succeeds on exactly the choices the menu
      rule accepts, so a validated choice never misses the table. */
  function CommandOf(choice: string): (r: Option<Command>)
    ensures r.Some? <==> Matches(Menu, choice)
    ensures r.Some? ==> ChoiceKey(r.value) == choice
  {
    if choice == "1" then Some(AddCmd)
    else if choice == "2" then Some(DeleteCmd)
    else if choice == "3" then Some(SearchCmd)
    else if choice == "4" then Some(UpdateCmd)
    else if choice == "5" then Some(ListCmd)
    else if choice == "6" then Some(ExitCmd)
    else
      None
  }

  /** Distinct items have distinct keys. */
  lemma ChoiceKeyInjective(a: Command, b: Command)
    requires ChoiceKey(a) == ChoiceKey(b)
    ensures a == b
  {
  }

  /** Every menu item is reachable: its key passes the menu rule and leads
      back to it. */
  lemma ChoiceKeyRoundTrip(cmd: Command)
    ensures Matches(Menu, ChoiceKey(cmd))
    ensures CommandOf(ChoiceKey(cmd)) == Some(cmd)
  {
  }

  /** Add: read the five fields, append the record, save. */
  function AddContact(store: seq<Contact>, lines: seq<string>): (r: Option<Done>)
    ensures r.None? <==> ReadContact(lines).None?
    ensures r.Some? ==> r.value.outcome == Add(store, ReadContact(lines).value.value)
    ensures r.Some? ==> r.value.used == ReadContact(lines).value.used <= |lines|
    ensures r.Some? ==> r.value.outcome.saved && r.value.report == Added
    ensures r.Some? ==> |r.value.outcome.store| == |store| + 1
    ensures r.Some? ==> r.value.outcome.store[..|store|] == store
    ensures r.Some? ==> ValidContact(r.value.outcome.store[|store|])
  {
    match ReadContact(lines)
    case None => None
    case Some(c) => Some(Done(Add(store, c.value), Added, c.used))
  }

  /** Delete: read a phone number, drop every record with it; report and save
      only when something was dropped. */
  function DeleteContact(store: seq<Contact>, lines: seq<string>): (r: Option<Done>)
    ensures r.None? <==> ValidateEntry(PhoneNumber, lines).None?
    ensures r.Some? ==> r.value.outcome == Delete(store, ValidateEntry(PhoneNumber, lines).value.value)
    ensures r.Some? ==> r.value.used == ValidateEntry(PhoneNumber, lines).value.used <= |lines|
    ensures r.Some? ==> (r.value.report == Deleted <==> r.value.outcome.saved)
    ensures r.Some? ==> r.value.report in {Deleted, NoSuchPhone}
  {
    match ValidateEntry(PhoneNumber, lines)
    case None => None
    case Some(p) =>
      var d := Delete(store, p.value);
      Some(Done(d, if d.saved then Deleted else NoSuchPhone, p.used))
  }

  /** Search: read a name and show the records with that name up to case; the
      store is left as it is and not saved. */
  function SearchContact(store: seq<Contact>, lines: seq<string>): (r: Option<Done>)
    ensures r.None? <==> ValidateEntry(Name, lines).None?
    ensures r.Some? ==> r.value.used == ValidateEntry(Name, lines).value.used <= |lines|
    ensures r.Some? ==>
              var found := Search(store, ValidateEntry(Name, lines).value.value);
              (r.value.report.NoResults? <==> found == []) && (r.value.report.Found? ==> r.value.report.matches == found)
    ensures r.Some? ==> r.value.outcome == Outcome(store, false)
    ensures r.Some? ==> r.value.report.NoResults? || (r.value.report.Found? && r.value.report.matches != [])
  {
    match ValidateEntry(Name, lines)
    case None => None
    case Some(q) =>
      var found := Search(store, q.value);
      Some(Done(Outcome(store, false), if found == [] then NoResults else Found(found), q.used))
  }

  /** Update: read a phone number; if a record has it, read a whole new
      record and put it in place of the first such record, then save;
      otherwise report it and read nothing more. */
  function UpdateContact(store: seq<Contact>, lines: seq<string>): (r: Option<Done>)
    ensures ValidateEntry(PhoneNumber, lines).None? ==> r.None?
    ensures var p := ValidateEntry(PhoneNumber, lines);
            p.Some? && FirstMatch(store, p.value.value).None? ==>
              r == Some(Done(Outcome(store, false), NoSuchPhone, p.value.used))
    ensures var p := ValidateEntry(PhoneNumber, lines);
            p.Some? && FirstMatch(store, p.value.value).Some? ==>
              (r.None? <==> ReadContact(lines[p.value.used..]).None?)
    ensures var p := ValidateEntry(PhoneNumber, lines);
            p.Some? && FirstMatch(store, p.value.value).Some? && r.Some? ==>
              var c := ReadContact(lines[p.value.used..]).value;
              r.value.outcome == Update(store, p.value.value, c.value) && r.value.used == p.value.used + c.used
    ensures r.Some? ==> r.value.used <= |lines|
    ensures r.Some? ==> (r.value.report == Updated <==> r.value.outcome.saved)
    ensures r.Some? ==> r.value.report in {Updated, NoSuchPhone}
    ensures r.Some? ==> |r.value.outcome.store| == |store|
    ensures r.Some? && !r.value.outcome.saved ==> r.value.outcome.store == store
  {
    match ValidateEntry(PhoneNumber, lines)
    case None => None
    case Some(p) =>
      match FirstMatch(store, p.value)
      case None => Some(Done(Outcome(store, false), NoSuchPhone, p.used))
      case Some(_) =>
        match ReadContact(lines[p.used..])
        case None => None
        case Some(c) => Some(Done(Update(store, p.value, c.value), Updated, p.used + c.used))
  }

  /** List: show every record, numbered from 1; reads nothing. */
  function ListContacts(store: seq<Contact>): (r: Done)
    ensures r.outcome == Outcome(store, false) && r.used == 0
    ensures r.report == Shown(ListAll(store))
    ensures r.report.listing.EmptyList? <==> store == []
  {
    Done(Outcome(store, false), Shown(ListAll(store)), 0)
  }

  /** The dispatch table: the feature each menu item runs. Exit reads
      nothing, changes nothing and says goodbye; no other feature says
      goodbye. */
  function Perform(cmd: Command, store: seq<Contact>, lines: seq<string>): (r: Option<Done>)
    ensures r.Some? ==> (r.value.report == Goodbye <==> cmd == ExitCmd)
    ensures r.Some? ==> r.value.used <= |lines|
    ensures r.Some? && !r.value.outcome.saved ==> r.value.outcome.store == store
    ensures r.Some? && r.value.outcome.saved ==> cmd in {AddCmd, DeleteCmd, UpdateCmd}
    ensures r.Some? && AllValid(store) ==> AllValid(r.value.outcome.store)
  {
    match cmd
    case AddCmd => AddContact(store, lines)
    case DeleteCmd => DeleteContact(store, lines)
    case SearchCmd => SearchContact(store, lines)
    case UpdateCmd => UpdateContact(store, lines)
    case ListCmd => Some(ListContacts(store))
    case ExitCmd => Some(Done(Outcome(store, false), Goodbye, 0))
  }

  /** Which feature each menu item runs, by item and by the key typed to
      choose it: 1 add, 2 delete, 3 search, 4 update, 5 list, and 6 exit,
      which reads nothing, keeps the store and says goodbye. */
  lemma PerformDispatch(cmd: Command, store: seq<Contact>, lines: seq<string>)
    ensures ChoiceKey(cmd) == "1" ==> Perform(cmd, store, lines) == AddContact(store, lines)
    ensures ChoiceKey(cmd) == "2" ==> Perform(cmd, store, lines) == DeleteContact(store, lines)
    ensures ChoiceKey(cmd) == "3" ==> Perform(cmd, store, lines) == SearchContact(store, lines)
    ensures ChoiceKey(cmd) == "4" ==> Perform(cmd, store, lines) == UpdateContact(store, lines)
    ensures ChoiceKey(cmd) == "5" ==> Perform(cmd, store, lines) == Some(ListContacts(store))
    ensures ChoiceKey(cmd) == "6" ==> Perform(cmd, store, lines) == Some(Done(Outcome(store, false), Goodbye, 0))
    ensures cmd == AddCmd ==> Perform(cmd, store, lines) == AddContact(store, lines)
    ensures cmd == DeleteCmd ==> Perform(cmd, store, lines) == DeleteContact(store, lines)
    ensures cmd == SearchCmd ==> Perform(cmd, store, lines) == SearchContact(store, lines)
    ensures cmd == UpdateCmd ==> Perform(cmd, store, lines) == UpdateContact(store, lines)
    ensures cmd == ListCmd ==> Perform(cmd, store, lines) == Some(ListContacts(store))
    ensures cmd == ExitCmd ==> Perform(cmd, store, lines) == Some(Done(Outcome(store, false), Goodbye, 0))
  {
  }

  /** The menu prompt followed by the dispatch-table lookup: the item of the
      first line the menu rule accepts. */
  function ReadChoice(lines: seq<string>): (r: Option<Entered<Command>>)
    ensures r.None? <==> ValidateEntry(Menu, lines).None?
    ensures r.Some? ==> var m := ValidateEntry(Menu, lines).value;
                        ChoiceKey(r.value.value) == m.value && r.value.used == m.used
    ensures r.Some? ==> 0 < r.value.used <= |lines|
  {
    match ValidateEntry(Menu, lines)
    case None => None
    case Some(m) => Some(Entered(CommandOf(m.value).value, m.used))
  }

  /** One pass of the menu loop: read a menu choice and run its feature on
      the lines that follow. It comes back empty only when the input runs
      out, in the menu prompt or in the feature's own prompts. */
  function RunStep(store: seq<Contact>, lines: seq<string>): (r: Option<Step>)
    ensures var c := ReadChoice(lines);
            r.Some? <==> c.Some? && Perform(c.value.value, store, lines[c.value.used..]).Some?
    ensures var c := ReadChoice(lines);
            r.Some? ==>
              && r.value.command == c.value.value
              && var d := Perform(c.value.value, store, lines[c.value.used..]).value;
                 r.value.done == Done(d.outcome, d.report, c.value.used + d.used)
    ensures r.Some? ==> 0 < r.value.done.used <= |lines|
    ensures r.Some? && !r.value.done.outcome.saved ==> r.value.done.outcome.store == store
    ensures r.Some? && r.value.done.outcome.saved ==> r.value.command in {AddCmd, DeleteCmd, UpdateCmd}
    ensures r.Some? ==> (r.value.done.report == Goodbye <==> r.value.command == ExitCmd)
    ensures r.Some? && AllValid(store) ==> AllValid(r.value.done.outcome.store)
  {
    match ReadChoice(lines)
    case None => None
    case Some(c) =>
      match Perform(c.value, store, lines[c.used..])
      case None => None
      case Some(d) => Some(Step(c.value, Done(d.outcome, d.report, c.used + d.used)))
  }

  /** The menu loop, from the store loaded at start-up, until the exit item
      is chosen or the input runs out. Every mutation is saved as it happens,
      so the store in memory always equals the last snapshot written (or the
      store loaded, if nothing was written), and a session that starts from
      valid records only ever holds and writes valid records. */
  function RunSession(store: seq<Contact>, lines: seq<string>): (r: Run)
    ensures r.store == if r.saves == [] then store else r.saves[|r.saves| - 1]
    ensures AllValid(store) ==> forall k | 0 <= k < |r.saves| :: AllValid(r.saves[k])
    decreases |lines|
  {
    match RunStep(store, lines)
    case None => Run(store, [], [], false)
    case Some(st) =>
      if st.command == ExitCmd then Run(store, [], [Goodbye], true)
      else
        var next := st.done.outcome;
        var rest := RunSession(next.store, lines[st.done.used..]);
        var written := if next.saved then [next.store] else [];
        SavesAppend(store, next, rest.store, rest.saves);
        Run(rest.store, written + rest.saves, [st.done.report] + rest.reports, rest.exited)
  }

  /** No partially validated record ever enters the store: a session that
      starts from valid records ends with valid records. */
  lemma SessionKeepsRecordsValid(store: seq<Contact>, lines: seq<string>)
    requires AllValid(store)
    ensures AllValid(RunSession(store, lines).store)
  {
  }

  /** The session said goodbye exactly when it ended by the exit item, and
      then as its last report. */
  ghost predicate GoodbyeLast(r: Run) {
    && (Goodbye in r.reports <==> r.exited)
    && (r.exited ==> r.reports != [] && r.reports[|r.reports| - 1] == Goodbye)
  }

  /** A session says goodbye exactly when it ends by the exit item, and then
      as its last report; one that ends because the input ran out never
      does. */
  lemma {:induction false} GoodbyeOnlyAtExit(store: seq<Contact>, lines: seq<string>)
    ensures GoodbyeLast(RunSession(store, lines))
    decreases |lines|
  {
    var step := RunStep(store, lines);
    if step.None? {
      InputRunsOut(store, lines);
    } else if step.value.command == ExitCmd {
      ExitChosen(store, lines);
    } else {
      var st := step.value;
      var rest := RunSession(st.done.outcome.store, lines[st.done.used..]);
      GoodbyeOnlyAtExit(st.done.outcome.store, lines[st.done.used..]);
      SessionStep(store, lines, st, rest);
      GoodbyeAfterStep(st.done.report, rest, RunSession(store, lines));
    }
  }

  /** A report other than goodbye in front of a session that says goodbye
      exactly when it exits, and then last, keeps that so. */
  lemma GoodbyeAfterStep(report: Report, rest: Run, r: Run)
    requires report != Goodbye && GoodbyeLast(rest)
    requires r.reports == [report] + rest.reports && r.exited == rest.exited
    ensures GoodbyeLast(r)
  {
    assert Goodbye in r.reports <==> Goodbye in rest.reports;
  }

  /** Typing an item's key as the menu choice selects that item. */
  lemma ChooseFirstLine(lines: seq<string>, cmd: Command)
    requires 0 < |lines| && Strip(lines[0]) == ChoiceKey(cmd)
    ensures ReadChoice(lines) == Some(Entered(cmd, 1))
  {
    ChoiceKeyRoundTrip(cmd);
    ValidateEntryFirstLine(Menu, lines);
  }

  /** A session whose first pass runs out of input ends there: the store
      loaded is the store kept, nothing is written, nothing is reported, and
      the session does not count as exited. */
  lemma InputRunsOut(store: seq<Contact>, lines: seq<string>)
    requires RunStep(store, lines).None?
    ensures RunSession(store, lines) == Run(store, [], [], false)
  {
  }

  /** A pass that chooses exit, after however many rejected menu lines, ends
      the session: the store loaded is the store kept, nothing is written,
      and only goodbye is said. */
  lemma ExitChosen(store: seq<Contact>, lines: seq<string>)
    requires RunStep(store, lines).Some? && RunStep(store, lines).value.command == ExitCmd
    ensures RunSession(store, lines) == Run(store, [], [Goodbye], true)
  {
  }

  /** Choosing exit as the first line ends the session at once. */
  lemma ExitAtOnce(store: seq<Contact>, lines: seq<string>)
    requires 0 < |lines| && Strip(lines[0]) == "6"
    ensures RunSession(store, lines) == Run(store, [], [Goodbye], true)
  {
    ChooseFirstLine(lines, ExitCmd);
    ExitChosen(store, lines);
  }

  /** Choosing add, then typing five fields each acceptable as typed, runs
      one pass that appends the record of those fields, stripped, and saves;
      it reads six lines. */
  lemma AddStep(store: seq<Contact>, lines: seq<string>)
    requires 6 <= |lines|
    requires Strip(lines[0]) == "1"
    requires forall i | 0 <= i < |FieldRules| :: Matches(FieldRules[i], Strip(lines[i + 1]))
    ensures var c := Contact(Strip(lines[1]), Strip(lines[2]), Strip(lines[3]), Strip(lines[4]), Strip(lines[5]));
            RunStep(store, lines) == Some(Step(AddCmd, Done(Outcome(store + [c], true), Added, 6)))
  {
    ChooseFirstLine(lines, AddCmd);
    var fields := lines[1..];
    forall i | 0 <= i < |FieldRules|
      ensures Matches(FieldRules[i], Strip(fields[i]))
    {
      assert fields[i] == lines[i + 1];
    }
    ReadContactCleanInput(fields);
  }

  /** Choosing add on a store, typing five acceptable fields, then choosing
      exit: the session ends with that record appended to the store, writes
      the contacts file exactly once, with that store, and reports the add
      and goodbye. */
  lemma AddThenExit(store: seq<Contact>, lines: seq<string>)
    requires 7 <= |lines|
    requires Strip(lines[0]) == "1"
    requires forall i | 0 <= i < |FieldRules| :: Matches(FieldRules[i], Strip(lines[i + 1]))
    requires Strip(lines[6]) == "6"
    ensures var c := Contact(Strip(lines[1]), Strip(lines[2]), Strip(lines[3]), Strip(lines[4]), Strip(lines[5]));
            var r := RunSession(store, lines);
            r.store == store + [c] && r.saves == [store + [c]] && r.exited
            && |r.reports| == 2 && r.reports[0] == Added && r.reports[1] == Goodbye
  {
    var c := Contact(Strip(lines[1]), Strip(lines[2]), Strip(lines[3]), Strip(lines[4]), Strip(lines[5]));
    var next := store + [c];
    var st := Step(AddCmd, Done(Outcome(next, true), Added, 6));
    assert RunStep(store, lines) == Some(st) by {
      AddStep(store, lines);
    }
    assert RunSession(next, lines[6..]) == Run(next, [], [Goodbye], true) by {
      assert lines[6..][0] == lines[6];
      ExitAtOnce(next, lines[6..]);
    }
    SavedThenGoodbye(store, lines, st, next);
  }

  /** The session-level bookkeeping of a saving pass followed by an exit. */
  lemma SavedThenGoodbye(store: seq<Contact>, lines: seq<string>, st: Step, next: seq<Contact>)
    requires RunStep(store, lines) == Some(st) && st.command != ExitCmd
    requires st.done.outcome == Outcome(next, true)
    requires RunSession(next, lines[st.done.used..]) == Run(next, [], [Goodbye], true)
    ensures var r := RunSession(store, lines);
            r.store == next && r.saves == [next] && r.exited
            && |r.reports| == 2 && r.reports[0] == st.done.report && r.reports[1] == Goodbye
  {
    var rest := Run(next, [], [Goodbye], true);
    SessionStep(store, lines, st, rest);
    OneSaveThenGoodbye(RunSession(store, lines), st.done.outcome, st.done.report, rest);
  }

  /** A saving pass in front of a session that only says goodbye: one write,
      two reports. */
  lemma OneSaveThenGoodbye(r: Run, next: Outcome, report: Report, rest: Run)
    requires next.saved && rest == Run(next.store, [], [Goodbye], true)
    requires && r.store == rest.store
             && r.saves == (if next.saved then [next.store] else []) + rest.saves
             && r.reports == [report] + rest.reports
             && r.exited == rest.exited
    ensures r.store == next.store && r.saves == [next.store] && r.exited
    ensures |r.reports| == 2 && r.reports[0] == report && r.reports[1] == Goodbye
  {
    assert [next.store] + [] == [next.store];
  }

  /** One pass that does not exit, followed by the rest of the session on
      the lines it left. */
  lemma SessionStep(store: seq<Contact>, lines: seq<string>, st: Step, rest: Run)
    requires RunStep(store, lines) == Some(st) && st.command != ExitCmd
    requires RunSession(st.done.outcome.store, lines[st.done.used..]) == rest
    ensures var r := RunSession(store, lines);
            && r.store == rest.store
            && r.saves == (if st.done.outcome.saved then [st.done.outcome.store] else []) + rest.saves
            && r.reports == [st.done.report] + rest.reports
            && r.exited == rest.exited
  {
  }

  /** The bookkeeping behind `RunSession`: putting one step's save (if any)
      in front of the rest of the session keeps the final store equal to the
      last snapshot and keeps every snapshot valid. */
  lemma SavesAppend(store: seq<Contact>, next: Outcome, last: seq<Contact>, saves: seq<seq<Contact>>)
    requires !next.saved ==> next.store == store
    requires last == if saves == [] then next.store else saves[|saves| - 1]
    ensures var all := (if next.saved then [next.store] else []) + saves;
            last == if all == [] then store else all[|all| - 1]
    ensures var all := (if next.saved then [next.store] else []) + saves;
            (AllValid(next.store) && forall k | 0 <= k < |saves| :: AllValid(saves[k])) ==>
              forall k | 0 <= k < |all| :: AllValid(all[k])
  {
  }
}
