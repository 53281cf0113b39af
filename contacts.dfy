/**
 * The contact book: contacts with a name, address, phone, e-mail and
 * birthday; adding without duplicate phones, first-match search, field-wise
 * editing, deletion by identity, and the upcoming-birthday listing.
 */
module Contacts {
  import opened Wrappers
  import opened Text
  import opened Lists
  import opened Calendar
  import opened Pattern

  /** A contact; `edit_contact` changes its fields in place. */
  class Contact {
    var name: string
    var address: string
    var phone: string
    var email: string
    var birthday: ValidDate

    constructor(name: string, address: string, phone: string, email: string, birthday: ValidDate)
      ensures this.name == name && this.address == address && this.phone == phone
      ensures this.email == email && this.birthday == birthday
    {
      this.name := name;
      this.address := address;
      this.phone := phone;
      this.email := email;
      this.birthday := birthday;
    }
  }

  // ---------------------------------------------------------------------
  // Duplicate phones
  // ---------------------------------------------------------------------

  /** `set(s)`: the characters of a string. */
  function CharSet(s: string): set<char> {
    set c | c in s
  }

  /** The duplicate test of `add_contact`: `set(a) == set(b)`. */
  predicate SamePhone(a: string, b: string) {
    CharSet(a) == CharSet(b)
  }

  /** Some stored contact has a phone that counts as the same as `phone`. */
  predicate HasPhone(cs: seq<Contact>, phone: string)
    reads cs
  {
    exists k | 0 <= k < |cs| :: SamePhone(cs[k].phone, phone)
  }

  /** The eight digits `0`..`7`. */
  const LowDigits: set<char> := {'0', '1', '2', '3', '4', '5', '6', '7'}

  lemma CharSetLocalExample()
    ensures CharSet("0501234567") == LowDigits
  {
    var a := "0501234567";
    assert a[0] == '0' && a[1] == '5' && a[3] == '1' && a[4] == '2' && a[5] == '3' && a[6] == '4' && a[8] == '6' && a[9] == '7';
    assert forall c | c in a :: c in LowDigits;
  }

  lemma CharSetReversedExample()
    ensures CharSet("7654321050") == LowDigits
  {
    var b := "7654321050";
    assert b[0] == '7' && b[1] == '6' && b[2] == '5' && b[3] == '4' && b[4] == '3' && b[5] == '2' && b[6] == '1' && b[7] == '0';
    assert forall c | c in b :: c in LowDigits;
  }

  lemma PhoneAcceptsReversed()
    ensures IsValidPhone("7654321050")
  {
    PhonePlainDigits("7654321050");
  }

  /**
   * Two different numbers written with the same digits count as the same
   * phone; both are valid (`PhoneAcceptsLocal`, `PhoneAcceptsReversed`).
   */
  lemma SamePhoneDifferentNumbers()
    ensures "0501234567" != "7654321050" && SamePhone("0501234567", "7654321050")
  {
    CharSetLocalExample();
    CharSetReversedExample();
  }

  /** Repeating a number's digits does not make it a different phone either. */
  lemma SamePhoneRepeated(a: string)
    ensures SamePhone(a, a + a)
  {
    assert forall c :: c in a + a <==> c in a;
  }

  // ---------------------------------------------------------------------
  // Search
  // ---------------------------------------------------------------------

  /** `query.lower() in contact.name.lower()` */
  predicate NameHit(c: Contact, query: string)
    reads c
  {
    Contains(Lower(c.name), Lower(query))
  }

  /** Position of the first contact, in list order, whose name matches. */
  function FirstMatch(cs: seq<Contact>, query: string): (r: Option<nat>)
    reads cs
    ensures r.Some? ==> r.value < |cs| && NameHit(cs[r.value], query)
    ensures r.Some? ==> forall j | 0 <= j < r.value :: !NameHit(cs[j], query)
    ensures r.None? ==> forall j | 0 <= j < |cs| :: !NameHit(cs[j], query)
  {
    if cs == [] then None
    else if NameHit(cs[0], query) then Some(0)
    else match FirstMatch(cs[1..], query)
      case None => None
      case Some(k) => Some(k + 1)
  }

  /** The contact `search_contacts` returns. */
  function Found(cs: seq<Contact>, query: string): Option<Contact>
    reads cs
  {
    match FirstMatch(cs, query)
    case None => None
    case Some(k) => Some(cs[k])
  }

  /** Every name contains the empty string: an empty query finds the first contact. */
  lemma EmptyQueryFindsFirst(cs: seq<Contact>)
    requires |cs| > 0
    ensures FirstMatch(cs, "") == Some(0)
  {
    assert Lower("") == "";
    assert StartsWith(Lower(cs[0].name), "");
  }

  // ---------------------------------------------------------------------
  // Birthdays
  // ---------------------------------------------------------------------

  /**
   * `get_next_birthday`: the birthday moved to today's year, or to the next
   * year when it has already passed this year; `date.replace` raises for a
   * date that does not exist.
   */
  function NextBirthday(birthday: ValidDate, today: ValidDate): (r: Result<Date, DateError>)
    ensures r.Ok? ==> Valid(r.value) && r.value.month == birthday.month && r.value.day == birthday.day
    ensures r.Ok? ==> r.value.year == if MonthDayBefore(birthday, today) then today.year + 1 else today.year
    ensures r.Ok? ==> !Before(r.value, today)
    ensures r.Err? ==> r.error == ValueError
    ensures r.Err? <==>
      if birthday.month == 2 && birthday.day == 29
      then !IsLeap(today.year) || MonthDayBefore(birthday, today)
      else MonthDayBefore(birthday, today) && today.year == MaxYear
  {
    match ReplaceYear(birthday, today.year)
    case Err(e) => Err(e)
    case Ok(next) =>
      if Before(next, today) then
        assert IsLeap(today.year) ==> !IsLeap(today.year + 1) by {
          if IsLeap(today.year) {
            LeapThenCommon(today.year);
          }
        }
        ReplaceYear(next, today.year + 1)
      else
        Ok(next)
  }

  /** The age expression of `upcoming_birthdays`. */
  function Age(birthday: Date, today: Date): int {
    today.year - birthday.year + 1 - (if MonthDayBefore(today, birthday) then 1 else 0)
  }

  /** `today + timedelta(days)` raises: too many days, or a date outside `date.min..date.max`. */
  predicate Overflows(today: ValidDate, days: int) {
    || days < -MaxTimedeltaDays || MaxTimedeltaDays < days
    || Ordinal(today) + days < 1 || MaxOrdinal < Ordinal(today) + days
  }

  /**
   * The filter of `upcoming_birthdays`: `today < next <= today + timedelta(days)`.
   * The chained comparison stops after its first half when that is false, so
   * the `timedelta` is only built for a birthday still ahead.
   */
  function InWindow(birthday: ValidDate, today: ValidDate, days: int): (r: Result<bool, DateError>)
    ensures r.Ok? ==> NextBirthday(birthday, today).Ok?
    ensures r.Ok? ==>
      var next := NextBirthday(birthday, today).value;
      (r.value <==> 1 <= Ordinal(next) - Ordinal(today) <= days)
    ensures r.Err? <==>
      || NextBirthday(birthday, today).Err?
      || (Before(today, NextBirthday(birthday, today).value) && Overflows(today, days))
    ensures r.Err? && NextBirthday(birthday, today).Ok? ==> r.error == OverflowError
  {
    match NextBirthday(birthday, today)
    case Err(e) => Err(e)
    case Ok(next) =>
      if !Before(today, next) then
        OrdinalBefore(today, next);
        Ok(false)
      else if Overflows(today, days) then Err(OverflowError)
      else
        OrdinalBefore(today, next);
        Ok(Ordinal(next) <= Ordinal(today) + days)
  }

  /** A birthday that falls today is never listed. */
  lemma BirthdayTodayNotListed(birthday: ValidDate, today: ValidDate, days: int)
    requires birthday.month == today.month && birthday.day == today.day
    ensures InWindow(birthday, today, days) == Ok(false)
  {
  }

  /** With a window of zero or fewer days nothing is listed. */
  lemma EmptyWindow(birthday: ValidDate, today: ValidDate, days: int)
    requires days <= 0
    ensures InWindow(birthday, today, days) != Ok(true)
  {
  }

  /** A birthday listed for a window stays listed for any wider window that does not overflow. */
  lemma WindowWidens(birthday: ValidDate, today: ValidDate, days: int, wider: int)
    requires days <= wider <= MaxTimedeltaDays && Ordinal(today) + wider <= MaxOrdinal
    requires InWindow(birthday, today, days) == Ok(true)
    ensures InWindow(birthday, today, wider) == Ok(true)
  {
    OrdinalRange(today);
  }

  /** For a listed contact the age shown is the age reached on the coming birthday. */
  lemma AgeAtNextBirthday(birthday: ValidDate, today: ValidDate, days: int)
    requires InWindow(birthday, today, days) == Ok(true)
    ensures Age(birthday, today) == NextBirthday(birthday, today).value.year - birthday.year
  {
    var next := NextBirthday(birthday, today).value;
    assert next != today;
  }

  /**
   * The list comprehension of `upcoming_birthdays`: the contacts whose next
   * birthday is within the window, in list order; the first exception raised
   * for a contact ends it.
   */
  function Upcoming(cs: seq<Contact>, today: ValidDate, days: int): (r: Result<seq<Contact>, DateError>)
    reads cs
    ensures r.Ok? <==> forall k | 0 <= k < |cs| :: InWindow(cs[k].birthday, today, days).Ok?
    ensures r.Ok? ==> forall k | 0 <= k < |r.value| :: r.value[k] in cs && InWindow(r.value[k].birthday, today, days) == Ok(true)
    ensures r.Ok? ==> forall k | 0 <= k < |cs| && InWindow(cs[k].birthday, today, days) == Ok(true) :: cs[k] in r.value
  {
    if cs == [] then Ok([])
    else
      match InWindow(cs[0].birthday, today, days)
      case Err(e) => Err(e)
      case Ok(listed) =>
        match Upcoming(cs[1..], today, days)
        case Err(e) => Err(e)
        case Ok(rest) => Ok(if listed then [cs[0]] + rest else rest)
  }

  /** The listed contacts keep the order of the book. */
  lemma {:induction false} UpcomingInOrder(cs: seq<Contact>, today: ValidDate, days: int)
    requires Upcoming(cs, today, days).Ok?
    ensures IsSubsequence(Upcoming(cs, today, days).value, cs)
    decreases |cs|
  {
    if cs != [] {
      UpcomingInOrder(cs[1..], today, days);
      var rest := Upcoming(cs[1..], today, days).value;
      if InWindow(cs[0].birthday, today, days) == Ok(true) {
        assert ([cs[0]] + rest)[1..] == rest;
      } else if rest != [] {
        assert rest[0] != cs[0];
      }
    }
  }

  /** A row of the upcoming-birthday table. */
  datatype BirthdayRow = BirthdayRow(name: string, birthday: Date, remaining: int, age: int)

  /** The row shown for a listed contact: days until the birthday, and the age. */
  function RowFor(c: Contact, today: ValidDate, days: int): (row: BirthdayRow)
    requires InWindow(c.birthday, today, days) == Ok(true)
    reads c
    ensures row.name == c.name && row.birthday == c.birthday
    ensures row.remaining == Ordinal(NextBirthday(c.birthday, today).value) - Ordinal(today)
    ensures 1 <= row.remaining <= days
    ensures row.age == NextBirthday(c.birthday, today).value.year - c.birthday.year
  {
    var next := NextBirthday(c.birthday, today).value;
    AgeAtNextBirthday(c.birthday, today, days);
    BirthdayRow(c.name, c.birthday, Ordinal(next) - Ordinal(today), Age(c.birthday, today))
  }

  /** What `edit_contact` reads for the birthday: nothing, a date, or text `dateutil` cannot parse. */
  datatype DateInput = Blank | Parsed(date: ValidDate) | Unparsable

  // ---------------------------------------------------------------------
  // The book
  // ---------------------------------------------------------------------

  class ContactManager {
    var contacts: seq<Contact>

    /** Every contact object is in the list once. */
    ghost predicate Valid()
      reads this
    {
      Distinct(contacts)
    }

    constructor()
      ensures contacts == [] && Valid()
    {
      contacts := [];
    }

    /**
     * `add_contact`: refused when a stored phone has the same set of
     * characters as the new one; otherwise one new contact at the end.
     */
    method AddContact(name: string, address: string, phone: string, email: string, birthday: ValidDate)
      returns (added: bool)
      requires Valid()
      modifies this
      ensures Valid()
      ensures added <==> !old(HasPhone(contacts, phone))
      ensures !added ==> contacts == old(contacts)
      ensures added ==> |contacts| == |old(contacts)| + 1 && contacts[..|old(contacts)|] == old(contacts)
      ensures added ==>
        var c := contacts[|contacts| - 1];
        fresh(c) && c.name == name && c.address == address && c.phone == phone && c.email == email && c.birthday == birthday
    {
      if HasPhone(contacts, phone) {
        return false;
      }
      var c := new Contact(name, address, phone, email, birthday);
      contacts := contacts + [c];
      assert contacts[..|old(contacts)|] == old(contacts);
      return true;
    }

    /** `search_contacts`: the first contact whose name contains the query, ignoring case. */
    method SearchContacts(query: string) returns (found: Option<Contact>)
      ensures found == Found(contacts, query)
      ensures found.Some? ==> found.value in contacts && NameHit(found.value, query)
      ensures found.None? <==> forall k | 0 <= k < |contacts| :: !NameHit(contacts[k], query)
    {
      var i := 0;
      while i < |contacts|
        invariant 0 <= i <= |contacts|
        invariant forall j | 0 <= j < i :: !NameHit(contacts[j], query)
      {
        if NameHit(contacts[i], query) {
          return Some(contacts[i]);
        }
        i := i + 1;
      }
      return None;
    }

    /**
     * `edit_contact`: name and address change only for non-empty input, phone
     * and e-mail only for non-empty input that passes its validator, the
     * birthday only for input that parses as a date.
     */
    method EditContact(contact: Option<Contact>, newName: string, newAddress: string,
                       newPhone: string, newEmail: string, newBirthday: DateInput)
      modifies if contact.Some? then {contact.value} else {}
      ensures contact.Some? ==>
        var c := contact.value;
        && c.name == (if newName != "" then newName else old(c.name))
        && c.address == (if newAddress != "" then newAddress else old(c.address))
        && c.phone == (if newPhone != "" && IsValidPhone(newPhone) then newPhone else old(c.phone))
        && c.email == (if newEmail != "" && IsValidEmail(newEmail) then newEmail else old(c.email))
        && c.birthday == (if newBirthday.Parsed? then newBirthday.date else old(c.birthday))
      ensures contact.Some? && IsValidPhone(old(contact.value.phone)) ==> IsValidPhone(contact.value.phone)
      ensures contact.Some? && IsValidEmail(old(contact.value.email)) ==> IsValidEmail(contact.value.email)
    {
      if contact.None? {
        return;
      }
      var c := contact.value;
      if newName != "" {
        c.name := newName;
      }
      if newAddress != "" {
        c.address := newAddress;
      }
      if newPhone != "" && IsValidPhone(newPhone) {
        c.phone := newPhone;
      }
      if newEmail != "" && IsValidEmail(newEmail) {
        c.email := newEmail;
      }
      if newBirthday.Parsed? {
        c.birthday := newBirthday.date;
      }
    }

    /**
     * `delete_contact`: the given contact, or when none is given the one
     * `search_contacts` finds for `query`, is removed if it is in the list.
     */
    method DeleteContact(contact: Option<Contact>, query: string)
      requires Valid()
      modifies this
      ensures Valid()
      ensures
        var target := if contact.Some? then contact else old(Found(contacts, query));
        if target.Some? && target.value in old(contacts)
        then contacts == RemoveFirst(old(contacts), target.value)
          && |contacts| == |old(contacts)| - 1
          && forall c :: c in contacts <==> c in old(contacts) && c != target.value
        else contacts == old(contacts)
    {
      var target := contact;
      if target.None? {
        target := SearchContacts(query);
      }
      if target.Some? && target.value in contacts {
        RemoveDistinct(contacts, target.value);
        contacts := RemoveFirst(contacts, target.value);
      }
    }

    /** The rows of the `upcoming_birthdays` table, or the exception that stops it. */
    method UpcomingBirthdays(today: ValidDate, days: int) returns (r: Result<seq<BirthdayRow>, DateError>)
      ensures r.Ok? <==> Upcoming(contacts, today, days).Ok?
      ensures r.Ok? ==>
        var up := Upcoming(contacts, today, days).value;
        |r.value| == |up| && forall k | 0 <= k < |up| :: r.value[k].name == up[k].name && r.value[k].birthday == up[k].birthday
      ensures r.Ok? ==> forall k | 0 <= k < |r.value| :: 1 <= r.value[k].remaining <= days
      ensures r.Ok? ==>
        var up := Upcoming(contacts, today, days).value;
        forall k | 0 <= k < |up| ::
          r.value[k].remaining == Ordinal(NextBirthday(up[k].birthday, today).value) - Ordinal(today)
      ensures r.Ok? ==>
        var up := Upcoming(contacts, today, days).value;
        forall k | 0 <= k < |up| :: r.value[k].age == NextBirthday(up[k].birthday, today).value.year - up[k].birthday.year
    {
      var listed := Upcoming(contacts, today, days);
      if listed.Err? {
        return Err(listed.error);
      }
      var up := listed.value;
      var rows: seq<BirthdayRow> := [];
      for i := 0 to |up|
        invariant |rows| == i
        invariant forall k | 0 <= k < i :: rows[k] == RowFor(up[k], today, days)
      {
        rows := rows + [RowFor(up[i], today, days)];
      }
      return Ok(rows);
    }
  }
}
