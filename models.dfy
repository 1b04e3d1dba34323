/**
 * The records of the event-registration store (event_registration/models.py), the
 * enumerated choice sets that constrain profiles and bookings, and the whitespace
 * stripping that both the user manager's normalize_mobile and the serializers'
 * character fields apply (Python's str.strip with no argument).
 */
module Models {
  import opened Wrappers

  // ---------------------------------------------------------------------------
  // Whitespace and str.strip()
  // ---------------------------------------------------------------------------

  /** The characters for which Python's str.isspace() holds. */
  predicate IsSpace(c: char) {
    ('\t' <= c <= '\r') || ('\U{1C}' <= c <= '\U{1F}') || c == ' ' || c == '\U{85}' || c == '\U{A0}'
    || c == '\U{1680}' || ('\U{2000}' <= c <= '\U{200A}') || c == '\U{2028}' || c == '\U{2029}'
    || c == '\U{202F}' || c == '\U{205F}' || c == '\U{3000}'
  }

  predicate AllSpace(s: string) {
    forall k :: 0 <= k < |s| ==> IsSpace(s[k])
  }

  /** `s` with its leading whitespace removed: the longest suffix that does not start with a space. */
  function TrimStart(s: string): (r: string)
    ensures |r| <= |s| && r == s[|s| - |r|..]
    ensures AllSpace(s[..|s| - |r|])
    ensures r != [] ==> !IsSpace(r[0])
  {
    if |s| > 0 && IsSpace(s[0]) then
      var r := TrimStart(s[1..]);
      assert s[..|s| - |r|] == [s[0]] + s[1..][..|s| - 1 - |r|];
      r
    else s
  }

  /** `s` with its trailing whitespace removed: the longest prefix that does not end with a space. */
  function TrimEnd(s: string): (r: string)
    ensures |r| <= |s| && r == s[..|r|]
    ensures AllSpace(s[|r|..])
    ensures r != [] ==> !IsSpace(r[|r| - 1])
  {
    if |s| > 0 && IsSpace(s[|s| - 1]) then
      var t := s[..|s| - 1];
      var r := TrimEnd(t);
      assert s[|r|..] == t[|r|..] + [s[|s| - 1]];
      r
    else s
  }

  /** Python's `s.strip()`. */
  function Strip(s: string): (r: string)
    ensures r != [] ==> !IsSpace(r[0]) && !IsSpace(r[|r| - 1])
    ensures r == [] <==> AllSpace(s)
  {
    var t := TrimStart(s);
    var r := TrimEnd(t);
    assert r == [] ==> AllSpace(s) by {
      if r == [] {
        // a non-empty t starts with a non-space, which TrimEnd would keep
        assert t == [];
        assert s[..|s|] == s;
      }
    }
    r
  }

  /** Stripping removes exactly the whitespace padding around a core that has none at its edges. */
  lemma {:induction false} StripOfPadded(front: string, core: string, back: string)
    requires AllSpace(front) && AllSpace(back)
    requires core != [] ==> !IsSpace(core[0]) && !IsSpace(core[|core| - 1])
    ensures Strip(front + core + back) == core
  {
    var s := front + core + back;
    if core == [] {
      assert s == front + back;
      forall k | 0 <= k < |s| ensures IsSpace(s[k]) {
        if k < |front| {
          assert s[k] == front[k];
        } else {
          assert s[k] == back[k - |front|];
        }
      }
      return;
    }
    assert (core + back)[0] == core[0];
    TrimStartOfPadded(front, core + back);
    assert TrimStart(s) == core + back by {
      assert s == front + (core + back);
    }
    TrimEndOfPadded(core, back);
  }

  lemma {:induction false} TrimStartOfPadded(front: string, rest: string)
    requires AllSpace(front)
    requires rest != [] ==> !IsSpace(rest[0])
    ensures TrimStart(front + rest) == rest
  {
    if front != [] {
      assert (front + rest)[1..] == front[1..] + rest;
      TrimStartOfPadded(front[1..], rest);
    } else {
      assert front + rest == rest;
    }
  }

  lemma {:induction false} TrimEndOfPadded(rest: string, back: string)
    requires AllSpace(back)
    requires rest != [] ==> !IsSpace(rest[|rest| - 1])
    ensures TrimEnd(rest + back) == rest
  {
    if back != [] {
      assert (rest + back)[..|rest + back| - 1] == rest + back[..|back| - 1];
      TrimEndOfPadded(rest, back[..|back| - 1]);
    } else {
      assert rest + back == rest;
    }
  }

  /** Unlike the mobile-number canonicalisation, stripping is idempotent. */
  lemma StripIdempotent(s: string)
    ensures Strip(Strip(s)) == Strip(s)
  {
    StripOfPadded([], Strip(s), []);
    assert [] + Strip(s) + [] == Strip(s);
  }

  // ---------------------------------------------------------------------------
  // Choice sets
  // ---------------------------------------------------------------------------

  /** Profile.AGE_OPTIONS. */
  datatype AgeBracket = Age18To24 | Age25To40 | Age41To55 | Age55Plus {
    function Label(): string {
      match this
      case Age18To24 => "18-24"
      case Age25To40 => "25-40"
      case Age41To55 => "41-55"
      case Age55Plus => "55+"
    }
  }

  /** Profile.GENDER_OPTIONS. */
  datatype Gender = Male | Female | RatherNotToSay {
    function Label(): string {
      match this
      case Male => "Male"
      case Female => "Female"
      case RatherNotToSay => "Rather Not To Say"
    }
  }

  /** EventBooking.ATTENDING_TIME. */
  datatype AttendingTime = FourToEight | EightToTwelve {
    function Label(): string {
      match this
      case FourToEight => "4PM-8PM"
      case EightToTwelve => "8PM-12PM"
    }
  }

  /** A choice field accepts exactly the stored labels of its options. */
  function ParseAge(s: string): (r: Option<AgeBracket>)
    ensures r.Some? ==> r.value.Label() == s
    ensures r.None? ==> forall a: AgeBracket :: a.Label() != s
  {
    if s == "18-24" then Some(Age18To24)
    else if s == "25-40" then Some(Age25To40)
    else if s == "41-55" then Some(Age41To55)
    else if s == "55+" then Some(Age55Plus)
    else None
  }

  function ParseGender(s: string): (r: Option<Gender>)
    ensures r.Some? ==> r.value.Label() == s
    ensures r.None? ==> forall g: Gender :: g.Label() != s
  {
    if s == "Male" then Some(Male)
    else if s == "Female" then Some(Female)
    else if s == "Rather Not To Say" then Some(RatherNotToSay)
    else None
  }

  function ParseAttendingTime(s: string): (r: Option<AttendingTime>)
    ensures r.Some? ==> r.value.Label() == s
    ensures r.None? ==> forall t: AttendingTime :: t.Label() != s
  {
    if s == "4PM-8PM" then Some(FourToEight)
    else if s == "8PM-12PM" then Some(EightToTwelve)
    else None
  }

  /** Every option round-trips through its label, so no two options share one. */
  lemma ChoiceLabelsRoundTrip(a: AgeBracket, g: Gender, t: AttendingTime)
    ensures ParseAge(a.Label()) == Some(a)
    ensures ParseGender(g.Label()) == Some(g)
    ensures ParseAttendingTime(t.Label()) == Some(t)
  {
  }

  // ---------------------------------------------------------------------------
  // Records
  // ---------------------------------------------------------------------------

  /** User: the mobile number is the identifier (unique across users, see Database.Valid). */
  datatype User = User(mobile: string, isActive: bool, isStaff: bool, isSuperuser: bool)

  /** A user row as the model's field defaults create it. */
  function NewUser(mobile: string): (u: User)
    ensures u.mobile == mobile && u.isActive && !u.isStaff && !u.isSuperuser
  {
    User(mobile, true, false, false)
  }

  /** OTP: `user` is the index of a User; times are seconds. */
  datatype Otp = Otp(user: nat, code: nat, createdAt: int, expiresAt: int, active: bool)

  /** Event: `date` is a day number, start and end are seconds into the day. */
  datatype Event = Event(name: string, date: int, startTime: int, endTime: int, active: bool)

  /** Ticket: a ticket type of an event, with its price and counters. */
  datatype Ticket = Ticket(event: nat, name: string, price: nat, total: nat, available: nat)

  /** Profile: one-to-one with a user; `mobile` holds the canonical 10-digit number. */
  datatype Profile = Profile(user: nat, name: string, age: AgeBracket, mobile: string,
                             email: Option<string>, gender: Gender)

  /** EventBooking: one-to-one with a user. */
  datatype Booking = Booking(event: nat, user: nat, ticket: nat, quantity: nat,
                             attendingTime: AttendingTime, cabRequired: bool,
                             location: string, address: string)
}
