/** The contact store: an ordered sequence of five-field records, and the
    add, delete, search, update and list operations on it. Each mutating
    operation returns the new store together with whether the program would
    write it to disk. */
module Contacts {
  import opened Wrappers
  import opened Ascii
  import opened Patterns
  import opened Seqs

  datatype Contact = Contact(name: string, age: string, phone: string, email: string, address: string)

  /** The field values in key order: name, age, phone number, email,
      address. */
  function Fields(c: Contact): seq<string> {
    [c.name, c.age, c.phone, c.email, c.address]
  }

  /** The keys of a record, in the order add builds them. */
  const FieldKeys: seq<string> := ["Name", "Age", "Phone Number", "Email", "Address"]

  /** The record holding five field values given in key order. */
  function FromFields(v: seq<string>): (c: Contact)
    requires |v| == 5
    ensures Fields(c) == v
  {
    Contact(v[0], v[1], v[2], v[3], v[4])
  }

  /** A store after an operation, and whether the operation saved it. */
  datatype Outcome = Outcome(store: seq<Contact>, saved: bool)

  /** One line of the numbered listing. */
  datatype Entry = Entry(number: nat, contact: Contact)

  datatype Listing = EmptyList | Entries(entries: seq<Entry>)

  /** Every field passes the rule stored under its key. */
  predicate ValidContact(c: Contact) {
    && Matches(Name, c.name)
    && Matches(Age, c.age)
    && Matches(PhoneNumber, c.phone)
    && Matches(Email, c.email)
    && Matches(Address, c.address)
  }

  /** No partially validated record is in the store. */
  ghost predicate AllValid(store: seq<Contact>) {
    forall c | c in store :: ValidContact(c)
  }

  /** Append the new record and save. */
  function Add(store: seq<Contact>, c: Contact): (r: Outcome)
    ensures |r.store| == |store| + 1
    ensures r.store[..|store|] == store
    ensures r.store[|store|] == c
    ensures r.saved
    ensures AllValid(store) && ValidContact(c) ==> AllValid(r.store)
  {
    Outcome(store + [c], true)
  }

  /** The test the delete comprehension keeps records by. */
  function OtherPhone(phone: string): Contact -> bool {
    (c: Contact) => c.phone != phone
  }

  /** Remove every record with the given phone number; save only when the
      store got shorter. */
  function Delete(store: seq<Contact>, phone: string): (r: Outcome)
    ensures forall c | c in r.store :: c.phone != phone
    ensures forall c: Contact | c.phone != phone :: multiset(r.store)[c] == multiset(store)[c]
    ensures r.saved <==> exists i | 0 <= i < |store| :: store[i].phone == phone
    ensures r.saved <==> |r.store| < |store|
    ensures !r.saved ==> r.store == store
    ensures AllValid(store) ==> AllValid(r.store)
  {
    var kept := Filter(store, OtherPhone(phone));
    assert forall c | c in kept :: c in store by {
      forall c | c in kept ensures c in store {
        assert multiset(kept)[c] > 0;
      }
    }
    Outcome(kept, |kept| < |store|)
  }

  /** Delete keeps exactly the records whose phone number differs, in store
      order: its result is the store at the increasing positions holding such
      a record, and at no other positions. */
  lemma DeleteIsSelection(store: seq<Contact>, phone: string)
    ensures var idx := KeptFrom(store, OtherPhone(phone), 0);
            && SubsequenceAt(Delete(store, phone).store, store, idx)
            && forall j | 0 <= j < |store| :: j in idx <==> store[j].phone != phone
  {
    FilterIsSelection(store, OtherPhone(phone));
  }

  /** The test the search comprehension keeps records by. */
  function NameIs(query: string): Contact -> bool {
    (c: Contact) => Lower(c.name) == Lower(query)
  }

  /** The records whose name equals the query up to case, in store order. */
  function Search(store: seq<Contact>, query: string): (r: seq<Contact>)
    ensures forall c | c in r :: Lower(c.name) == Lower(query)
    ensures forall c: Contact | Lower(c.name) == Lower(query) :: multiset(r)[c] == multiset(store)[c]
    ensures r == [] <==> forall i | 0 <= i < |store| :: Lower(store[i].name) != Lower(query)
  {
    var r := Filter(store, NameIs(query));
    assert forall i | 0 <= i < |store| && Lower(store[i].name) == Lower(query) :: multiset(r)[store[i]] > 0;
    assert forall c | c in r :: multiset(store)[c] > 0 by {
      forall c | c in r ensures multiset(store)[c] > 0 {
        assert multiset(r)[c] > 0;
      }
    }
    r
  }

  /** Search returns exactly the records whose name matches the query up to
      case, at their positions in the store and in the same order. */
  lemma SearchIsSelection(store: seq<Contact>, query: string)
    ensures var idx := KeptFrom(store, NameIs(query), 0);
            && SubsequenceAt(Search(store, query), store, idx)
            && forall j | 0 <= j < |store| :: j in idx <==> Lower(store[j].name) == Lower(query)
  {
    FilterIsSelection(store, NameIs(query));
  }

  /** Only the query's lower-cased form matters: queries that differ only in
      case find the same records. */
  lemma SearchIgnoresQueryCase(store: seq<Contact>, q1: string, q2: string)
    requires Lower(q1) == Lower(q2)
    ensures Search(store, q1) == Search(store, q2)
  {
  }

  /** Position of the first record at or after `k` with the given phone number. */
  function FirstMatchFrom(store: seq<Contact>, phone: string, k: nat): (r: Option<nat>)
    requires k <= |store|
    ensures r.Some? ==> k <= r.value < |store| && store[r.value].phone == phone
    ensures r.Some? ==> forall j | k <= j < r.value :: store[j].phone != phone
    ensures r.None? ==> forall j | k <= j < |store| :: store[j].phone != phone
    decreases |store| - k
  {
    if k == |store| then None
    else if store[k].phone == phone then Some(k)
    else FirstMatchFrom(store, phone, k + 1)
  }

  /** The scan `for index, c in enumerate(contacts)` that stops at the first
      record with the given phone number. */
  function FirstMatch(store: seq<Contact>, phone: string): (r: Option<nat>)
    ensures r.Some? ==> r.value < |store| && store[r.value].phone == phone
    ensures r.Some? ==> forall j | 0 <= j < r.value :: store[j].phone != phone
    ensures r.None? ==> forall j | 0 <= j < |store| :: store[j].phone != phone
  {
    FirstMatchFrom(store, phone, 0)
  }

  /** Overwrite the first record with the given phone number and save; with
      no such record, change nothing and do not save. */
  function Update(store: seq<Contact>, phone: string, entered: Contact): (r: Outcome)
    ensures |r.store| == |store|
    ensures r.saved <==> exists i | 0 <= i < |store| :: store[i].phone == phone
    ensures !r.saved ==> r.store == store
    ensures r.saved ==>
              exists i | 0 <= i < |store| ::
                && store[i].phone == phone
                && (forall j | 0 <= j < i :: store[j].phone != phone)
                && r.store == store[i := entered]
    ensures AllValid(store) && ValidContact(entered) ==> AllValid(r.store)
  {
    match FirstMatch(store, phone)
    case None => Outcome(store, false)
    case Some(i) =>
      assert forall c | c in store[i := entered] :: c == entered || c in store by {
        forall c | c in store[i := entered] ensures c == entered || c in store {
          var j :| 0 <= j < |store| && store[i := entered][j] == c;
          if j != i { assert store[j] == c; }
        }
      }
      Outcome(store[i := entered], true)
  }

  /** Number the records consecutively starting at `n`. */
  function NumberFrom(s: seq<Contact>, n: nat): (r: seq<Entry>)
    ensures |r| == |s|
    ensures forall i | 0 <= i < |s| :: r[i].number == n + i && r[i].contact == s[i]
  {
    if |s| == 0 then [] else [Entry(n, s[0])] + NumberFrom(s[1..], n + 1)
  }

  /** Show all contacts: an explicit empty result for an empty store,
      otherwise every record in order, numbered from 1. */
  function ListAll(store: seq<Contact>): (r: Listing)
    ensures r.EmptyList? <==> |store| == 0
    ensures r.Entries? ==> |r.entries| == |store|
    ensures r.Entries? ==> forall i | 0 <= i < |store| ::
              r.entries[i].number == i + 1 && r.entries[i].contact == store[i]
  {
    if |store| == 0 then EmptyList else Entries(NumberFrom(store, 1))
  }
}
