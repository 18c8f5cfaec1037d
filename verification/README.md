# Contact manager, modelled in Dafny

A model of a single-file, console contact book. The user keeps a list of
contacts, each with five text fields: Name, Age, Phone Number, Email and
Address. From a six-item menu they can add, delete, search, update and list
contacts, or exit. Every typed value is stripped of surrounding whitespace
and must fully match a fixed regular expression before it is accepted. The
prompt repeats until a line passes. Add, and a delete or update that finds
its phone number, write the whole list back to a JSON file.

The model has nine modules:

- `Wrappers`: the `Option` type, for a value that may be missing.
- `Ascii`: character classes plus Python's `str.strip()` and `str.lower()`, on ASCII.
- `Patterns`: the seven validation patterns. Each is a predicate that follows
  the shape of its regular expression. The table of rule keys is here too.
- `Seqs`: order-preserving filtering, the shape of a list comprehension.
- `Contacts`: the `Contact` record and the pure store operations. Add, delete
  and update return an `Outcome`, which is the new store plus a `saved` flag
  that is true exactly when the program would write the file.
- `Prompts`: a prompt loop over a finite list of texts, and a run of such
  loops one after the other, each taking up where the last one stopped.
- `Validation`: the prompt loop of the program, on stripped typed lines and
  the validation rules. It also reads a whole record field by field.
- `Session`: the menu dispatch, each feature driven by typed lines, and the
  menu loop. The loop records every file write as a snapshot of the store.
- `Scenarios`: concrete accept/reject examples and an add-list-delete-list walk.

The regular expressions are applied with `fullmatch`, so each pattern must
match the whole stripped line. The predicates say exactly that.

## Model

| member | source | states |
|---|---|---|
| `Ascii.Strip` | basic_contact_management_system.py:47 | the stripped line neither starts nor ends with whitespace |
| `Ascii.StripCutsOnlySpace` | basic_contact_management_system.py:47 | the stripped line is the slice of the typed line that starts right after its leading whitespace and is followed only by whitespace; with `Strip`'s contract, exactly the outer whitespace is removed |
| `Ascii.StripIdempotent` | basic_contact_management_system.py:47 | stripping an already stripped line changes nothing |
| `Ascii.Lower` | basic_contact_management_system.py:89 | lower-casing keeps the length and changes each character on its own: `A`-`Z` become the matching `a`-`z` and every other character is kept |
| `Ascii.LowerEqualIff` | basic_contact_management_system.py:89 | two strings are equal after lower-casing iff they have the same length and agree letter by letter once A-Z are folded to a-z |
| `Patterns.NameMatchShape` | basic_contact_management_system.py:6 | the Name rule accepts a line iff it is non-empty, starts and ends with a letter, holds only letters, spaces, apostrophes and hyphens, and every separator is followed by a letter (no doubled separator) |
| `Patterns.JoinedWordsToShape` | basic_contact_management_system.py:6 | whatever the repeated group `([ '-][A-Za-z]+)*` matches is empty or a separator-led run ending in a letter with no doubled separator |
| `Patterns.ShapeToJoinedWords` | basic_contact_management_system.py:6 | conversely, every such separator-led run is matched by the repeated group |
| `Patterns.AgeRange` | basic_contact_management_system.py:7 | the Age rule accepts a line that denotes a number below 1000, and every number below 1000 written in decimal is accepted: the digit count is the only check |
| `Patterns.PhoneMatchShape` | basic_contact_management_system.py:8 | the Phone Number rule accepts a line iff it is exactly 11 digits whose first three are 010, 011, 012 or 015 |
| `Patterns.EmailMatchSplit` | basic_contact_management_system.py:9 | the Email rule accepts a line iff, splitting at the first `@` and then at the first `.` after it, the local part is non-empty word characters and dots, the domain label is one or more letters, and the top-level part is at least two letters |
| `Patterns.AddressMatchJoin` | basic_contact_management_system.py:10 | the Address rule is a `+` repetition: two accepted addresses written one after the other are accepted |
| `Patterns.AddressMatchPieces` | basic_contact_management_system.py:10 | every non-empty piece of an accepted address is accepted, so an address is exactly a non-empty run of letters, digits, whitespace, commas, dots and hyphens |
| `Patterns.DeleteChoiceMatchShape` | basic_contact_management_system.py:11 | the Delete Choice rule accepts exactly the strings 1 and 2 |
| `Patterns.MenuMatchShape` | basic_contact_management_system.py:12 | the Menu rule accepts exactly the strings 1 to 6 |
| `Patterns.MatchesNonEmpty` | basic_contact_management_system.py:6-12 | no validation rule accepts an empty line, so a blank entry is always asked for again |
| `Patterns.RuleNamed` | basic_contact_management_system.py:18-26 | looking a key up in the rule table gives the rule stored under that key, and nothing for a key no rule has |
| `Patterns.RuleKeyRoundTrip` | basic_contact_management_system.py:18-26 | every rule is found under its own key |
| `Prompts.FirstAccepted` | basic_contact_management_system.py:46-51 | the prompt loop returns the first text that passes the test, together with how many texts it read; all earlier texts were rejected; it returns nothing only when every text was rejected, that is when the input ran out |
| `Prompts.ReadAll` | basic_contact_management_system.py:58-64 | prompting for several values one after the other gives one value per test, each accepted by its test, reading at least one text per value |
| `Prompts.ReadAllCleanInput` | basic_contact_management_system.py:58-64 | when each text is accepted by its test the first time, the values are exactly those texts and one text is read per value |
| `Prompts.ReadAllPromptByPrompt` | basic_contact_management_system.py:58-64 | each value read is what its own prompt loop returns on the texts the earlier loops left; no loop runs before the first text, and the first `i + 1` loops are the first `i` followed by loop `i` started on the text right after the last one they read, adding its value and its count of texts read |
| `Prompts.ReadAllFailsOnlyAtEnd` | basic_contact_management_system.py:58-64 | reading several values gives nothing iff some prompt loop, started right after the text the earlier loops last read, runs out of texts; a rejected text alone never ends the reading; the same step-by-step start positions as above |
| `Prompts.ReadAllStepByStep` | basic_contact_management_system.py:58-64 | the prompt loops run one after another with nothing skipped: no loop runs before the first text, and each starts on the text right after the one its predecessor accepted |
| `Validation.StripAll` | basic_contact_management_system.py:47 | each typed line is seen by the rules in its stripped form |
| `Validation.ValidateEntry` | basic_contact_management_system.py:43-51 | the returned text is the stripped typed line and fully matches the rule, no earlier line matched, and nothing is returned only when no line matches |
| `Validation.ValidateEntryFirstLine` | basic_contact_management_system.py:46-49 | a first line that matches once stripped is returned, stripped, after reading that one line |
| `Validation.EnteredIsStripped` | basic_contact_management_system.py:47-49 | the accepted text never has whitespace at either end |
| `Validation.ReadFields` | basic_contact_management_system.py:58-64 | reading values for a list of rules gives one value per rule, each accepted by its rule, using at least one line per rule |
| `Validation.ReadFieldsPromptByPrompt` | basic_contact_management_system.py:58-64 | each field value read is what `validate_entry` with that field's rule returns on the lines the earlier fields left; the first field prompt starts on the first line, and each later one on the line right after the one the prompt before it accepted |
| `Validation.ReadFieldsFailsOnlyAtEnd` | basic_contact_management_system.py:58-64 | reading the fields gives nothing iff some field's prompt, started right after the line the earlier prompts last read, runs out of lines; with the same step-by-step start positions |
| `Validation.ReadFieldsStepByStep` | basic_contact_management_system.py:58-64 | the field prompts run one after another with nothing skipped: the first starts on the first line, and each later one on the line right after the one the prompt before it accepted |
| `Validation.FieldsMakeValidContact` | basic_contact_management_system.py:58-64 | five values, each accepted by the rule of its key, make a record valid in every field |
| `Validation.ValidContactByKeys` | basic_contact_management_system.py:113-114 | looking each record key up in the rule table gives the rule its field is read with, and a record is valid exactly when each field passes the rule found under its key |
| `Validation.ReadContact` | basic_contact_management_system.py:58-64 | the record read is made of the field values read, in key order, so it is valid in every field; it reads the same lines as the field prompts and gives nothing exactly when they run out of input |
| `Validation.ReadContactCleanInput` | basic_contact_management_system.py:58-64 | five lines each acceptable once stripped give the record of those stripped lines, reading exactly five lines |
| `Seqs.Filter` | basic_contact_management_system.py:77 | the comprehension keeps only passing elements, keeps every passing element as often as it occurs, returns the input when nothing is dropped, and is shorter iff some element fails |
| `Seqs.FilterIsSelection` | basic_contact_management_system.py:77 | the comprehension's result is the input at the increasing positions whose element passes, and at no others |
| `Contacts.FromFields` | basic_contact_management_system.py:58-64 | a record built from five values in key order gives back exactly those values as its fields |
| `Contacts.Add` | basic_contact_management_system.py:58-66 | add makes the store one longer, keeps the old records as a prefix, puts the new record last, saves, and keeps an all-valid store all-valid |
| `Contacts.Delete` | basic_contact_management_system.py:75-82 | delete drops every record with the phone number and keeps every other record; it saves iff some record had the number, iff the store got shorter; without a save the store is unchanged |
| `Contacts.DeleteIsSelection` | basic_contact_management_system.py:77 | delete's result is the store at the increasing positions whose phone number differs, and at no others |
| `Contacts.Search` | basic_contact_management_system.py:88-93 | search returns only records whose name equals the query up to case, every such record, and nothing iff no name matches |
| `Contacts.SearchIsSelection` | basic_contact_management_system.py:89 | search's result is the store at the increasing positions whose name matches the query up to case, and at no others |
| `Contacts.SearchIgnoresQueryCase` | basic_contact_management_system.py:89 | queries that differ only in case find the same records |
| `Contacts.FirstMatch` | basic_contact_management_system.py:105-106 | the scan finds the first position holding the phone number, or nothing when no record holds it |
| `Contacts.Update` | basic_contact_management_system.py:105-121 | update keeps the length; with a matching record it replaces the first one only and leaves every other position alone, then saves; with none it leaves the store unchanged and does not save |
| `Contacts.NumberFrom` | basic_contact_management_system.py:133 | numbering gives consecutive numbers from the start value, one per record, in order |
| `Contacts.ListAll` | basic_contact_management_system.py:129-136 | the listing is the explicit empty message iff the store is empty; otherwise it shows every record in order, numbered from 1 |
| `Session.ChoiceKey` | basic_contact_management_system.py:164-171 | every menu item's key is a choice the Menu rule accepts |
| `Session.ChoiceKeyInjective` | basic_contact_management_system.py:164-171 | no two menu items share a key |
| `Session.CommandOf` | basic_contact_management_system.py:164-178 | the dispatch table has an entry for exactly the choices the Menu rule accepts, each under its own key |
| `Session.ChoiceKeyRoundTrip` | basic_contact_management_system.py:164-171 | every menu item's key passes the Menu rule and dispatches back to that item |
| `Session.AddContact` | basic_contact_management_system.py:55-67 | the add feature runs out of input iff reading the record does; otherwise its outcome is `Add` of the store and the record read, it reads the lines the record took, and it reports success |
| `Session.DeleteContact` | basic_contact_management_system.py:69-82 | the delete feature runs out of input iff the phone prompt does; otherwise its outcome is `Delete` of the store and the number read, and it reports success iff it saved |
| `Session.SearchContact` | basic_contact_management_system.py:84-99 | the search feature runs out of input iff the name prompt does; otherwise it shows no results iff `Search` for the name read finds nothing, shows exactly what it finds, and leaves the store unsaved and unchanged |
| `Session.UpdateContact` | basic_contact_management_system.py:101-121 | the update feature runs out of input only in the phone prompt or the field prompts; an unknown phone number reports no match after the phone line and keeps the store; a known one reads a record and its outcome is `Update` of the store with the number and record read, reading the lines of both |
| `Session.ListContacts` | basic_contact_management_system.py:126-138 | listing reads no input, shows `ListAll` of the store, changes and saves nothing, and is empty iff the store is |
| `Session.Perform` | basic_contact_management_system.py:164-171 | only exit says goodbye; only add, delete and update can save; a feature that does not save keeps the store; valid records stay valid |
| `Session.PerformDispatch` | basic_contact_management_system.py:164-171 | the key typed picks the feature: "1" runs add, "2" delete, "3" search, "4" update, "5" list, and "6" exits, reading nothing, keeping the store and saying goodbye; the same table is stated per menu item |
| `Session.ReadChoice` | basic_contact_management_system.py:175-178 | the item chosen is the one whose key is the first menu line the Menu rule accepts, reading the lines that prompt read; nothing only when that prompt runs out |
| `Session.ChooseFirstLine` | basic_contact_management_system.py:175-178 | typing an item's key as the first line selects that item after one line |
| `Session.RunStep` | basic_contact_management_system.py:173-179 | one pass of the menu loop runs the item `ReadChoice` gives on the lines after the choice, and reads the lines of both; it gives nothing only when the menu prompt or the feature runs out of input; only add, delete and update save, and valid records stay valid |
| `Session.RunSession` | basic_contact_management_system.py:160-179 | after any session the store in memory equals the last snapshot written, or the loaded store if nothing was written, and a session started from valid records only writes valid records |
| `Session.InputRunsOut` | basic_contact_management_system.py:173-179 | a session whose pass runs out of input ends there, with the loaded store, nothing written, nothing reported, and not marked as exited |
| `Session.ExitChosen` | basic_contact_management_system.py:173-179 | a pass that chooses exit, after any number of rejected menu lines, ends the session with the loaded store, nothing written, and only a goodbye |
| `Session.SessionStep` | basic_contact_management_system.py:173-179 | a pass that does not exit is followed by the rest of the session, on the store it left and the lines after it; its save, if any, comes first |
| `Session.GoodbyeOnlyAtExit` | basic_contact_management_system.py:140-143 | a session says goodbye iff it ended by choosing exit, and then goodbye is the last thing it reports |
| `Session.ExitAtOnce` | basic_contact_management_system.py:173-179 | choosing exit first ends the session with the loaded store, nothing written, and only a goodbye |
| `Session.AddStep` | basic_contact_management_system.py:55-67 | choosing add and typing five acceptable fields appends the record of the stripped fields, saves, reports success, and reads six lines |
| `Session.SavedThenGoodbye` | basic_contact_management_system.py:173-179 | a saving pass followed by choosing exit ends the session with exactly that one write and its report, then goodbye |
| `Session.AddThenExit` | basic_contact_management_system.py:160-179 | choosing add, typing five acceptable fields, then choosing exit ends with the record appended, writes the contacts file exactly once with that store, and reports the add then goodbye |
| `Session.SessionKeepsRecordsValid` | basic_contact_management_system.py:55-121 | a session started from valid records ends with valid records only |
| `Scenarios.AnnaIsValid` | basic_contact_management_system.py:6-10 | the sample record passes all five field rules |
| `Scenarios.PhoneExamples` | basic_contact_management_system.py:8 | 01512345678 is accepted; 09912345678 (unknown code) and 010123456 (too short) are rejected |
| `Scenarios.NameExamples` | basic_contact_management_system.py:6 | Mary-Jane O'Neil is accepted; a doubled space or a leading hyphen is rejected |
| `Scenarios.EmailExamples` | basic_contact_management_system.py:9 | first.last_1@mail.com is accepted; a one-letter top-level part is rejected |
| `Scenarios.AddressExamples` | basic_contact_management_system.py:10 | an address with an inner tab is accepted; one with a `#` is rejected |
| `Scenarios.ChoiceExamples` | basic_contact_management_system.py:11-12 | the Delete Choice rule accepts 2 and rejects 3 and 12; the Menu rule accepts 6 and rejects 7 and 0 |
| `Scenarios.AddListDeleteList` | basic_contact_management_system.py:55-138 | adding a contact to an empty book lists it as contact 1; deleting it by phone number saves an empty book, which lists as empty |

## Left out

- Loading and saving the JSON file (`load_data`, `save_data`, lines 30-41). These are file I/O through foreign library code. A save is the `saved` flag of an `Outcome`, or a snapshot in `Run.saves`. The load/save round trip is not modelled, and neither is the fallback to an empty list on a missing or corrupt file. `RunSession` starts from whatever store it is given.
- Console text: prompts, the menu banner (lines 147-156), emoji and field-by-field printing. What a feature shows is a `Report` value instead. `Shown` carries the numbered records, not the printed lines.
- `exit_program` and `sys.exit` (lines 140-143). Exit ends the modelled session with a `Goodbye` report and `exited` set.
- The endless blocking prompt. The console is a finite list of lines. When it runs out, the model returns nothing and the session stops. The program would instead raise EOFError there.
- Unicode. Python's `\d`, `\w`, `\s`, `str.strip()` and `str.lower()` are Unicode-aware. The model gives them their ASCII meaning, so a non-ASCII digit, letter or space counts as none of these. Whitespace is tab, line feed, vertical tab, form feed, carriage return, 0x1C-0x1F and space. For names entered through the prompts, which the Name rule limits to ASCII, ASCII lower-casing is exact. A name loaded from the file may hold non-ASCII letters that Python lower-cases to ASCII (KELVIN SIGN U+212A becomes `k`); search treats such a name differently in the model, and this falls under the same ASCII reading.
- Records with missing, extra or reordered keys, as a hand-edited file could hold. These would raise KeyError or send unknown keys to the rule table. The model's record has exactly the five fields, in the order add builds them.
- The "Delete Choice" rule (`INPUT_1OR2_RE`, lines 11 and 24). It is modelled as `Patterns.DeleteChoiceMatch` and sits in the rule table. No feature uses it, so only its accepted strings are stated.
- Scenarios.AddListDeleteList: the add-list-delete-list walk is stated on the store operations, not as typed menu lines fed through the prompt loop, to keep the proof small. `Session.AddThenExit` states a whole session on typed lines.
