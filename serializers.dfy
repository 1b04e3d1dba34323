/**
 * Input validation of event_registration/serializers.py: the mobile-number
 * canonicalisation shared by the three validate_mobile methods, the character-field
 * cleaning the serializers' declared fields perform before those methods run, the
 * int/str handling of ProfileSerializer.validate_mobile and the booking checks of
 * EventBookingSerializer.
 */
module Serializers {
  import opened Wrappers
  import opened Models

  /** What a serializer rejects an input for. */
  datatype ValidationError =
    | Blank                  // "This field may not be blank."
    | TooLong(limit: nat)    // longer than the field's max_length
    | InvalidMobile          // "Invalid mobile number. It must be a 10-digit Indian mobile number."
    | MobileNotString        // "Mobile number must be a string."
    | UnknownChoice          // not one of the field's choices
    | NegativeQuantity       // below a PositiveIntegerField's minimum
    | UnknownEvent           // event primary key does not exist
    | UnknownTicket          // ticket primary key does not exist
    | OnlyAvailable(count: nat)  // "Only {count} tickets are available."
    | NullCharacter          // "Null characters are not allowed."

  // ---------------------------------------------------------------------------
  // Mobile numbers
  // ---------------------------------------------------------------------------

  /** `\d`, restricted to ASCII digits. */
  predicate IsDigit(c: char) { '0' <= c <= '9' }

  predicate AllDigits(s: string) {
    forall k :: 0 <= k < |s| ==> IsDigit(s[k])
  }

  /** The country prefixes the substitution `^\+?91|^91` can remove. */
  const CountryPrefixes: set<string> := {"", "91", "+91"}

  /**
   * re.sub(r'^\+?91|^91', '', value): both alternatives are anchored at the start of
   * the string, so at most one leading "+91" or "91" is removed.
   */
  function StripCountryCode(value: string): (r: string)
    ensures |r| <= |value| && r == value[|value| - |r|..]
    ensures value[..|value| - |r|] in CountryPrefixes
    ensures r == value <==> !HasPlusPrefix(value) && !HasCodePrefix(value)
  {
    if HasPlusPrefix(value) then
      assert value[..3] == "+91";
      value[3..]
    else if HasCodePrefix(value) then
      assert value[..2] == "91";
      value[2..]
    else
      assert value[..0] == "";
      value
  }

  /** The value begins with "+91". */
  predicate HasPlusPrefix(s: string) {
    |s| >= 3 && s[0] == '+' && s[1] == '9' && s[2] == '1'
  }

  /** The value begins with "91". */
  predicate HasCodePrefix(s: string) {
    |s| >= 2 && s[0] == '9' && s[1] == '1'
  }

  /**
   * re.match(r'^\d{10}$', value): ten digits and then the end of the string, where
   * Python's `$` also matches just before one final newline.
   */
  predicate TenDigits(value: string) {
    (|value| == 10 && AllDigits(value)) || (|value| == 11 && AllDigits(value[..10]) && value[10] == '\n')
  }

  /** The body shared by the three validate_mobile methods. */
  function ValidateMobile(value: string): (r: Result<string, ValidationError>)
    ensures r.Ok? ==> |r.value| >= 10 && AllDigits(r.value[..10])
    ensures r.Ok? ==> |r.value| == 10 || r.value == r.value[..10] + "\n"
    ensures r.Ok? ==> |r.value| <= |value| && value == value[..|value| - |r.value|] + r.value
                      && value[..|value| - |r.value|] in CountryPrefixes
    ensures r.Err? ==> r.error == InvalidMobile
  {
    var v := StripCountryCode(value);
    if TenDigits(v) then
      assert value == value[..|value| - |v|] + v;
      Ok(v)
    else Err(InvalidMobile)
  }

  /** A number written with "+91", with "91" or bare canonicalises to its ten digits, except a bare one that itself starts with 91. */
  lemma CanonicalForms(d: string)
    requires |d| == 10 && AllDigits(d)
    ensures ValidateMobile("+91" + d) == Ok(d)
    ensures ValidateMobile("91" + d) == Ok(d)
    ensures ValidateMobile(d) == if HasCodePrefix(d) then Err(InvalidMobile) else Ok(d)
  {
    assert ("+91" + d)[3..] == d;
    assert ("91" + d)[2..] == d;
    assert !HasPlusPrefix(d) by { assert IsDigit(d[0]); }
  }

  /** The worked examples: three spellings of one number, and a short number. */
  lemma MobileExamples()
    ensures ValidateMobile("+919876543210") == Ok("9876543210")
    ensures ValidateMobile("919876543210") == Ok("9876543210")
    ensures ValidateMobile("9876543210") == Ok("9876543210")
    ensures ValidateMobile("98765") == Err(InvalidMobile)
  {
    var d := "9876543210";
    assert AllDigits(d);
    var withPlus, withCode := "+919876543210", "919876543210";
    assert withPlus[3..] == d;
    assert withCode[2..] == d;
    assert StripCountryCode("98765") == "98765";
  }

  /**
   * Canonicalisation is not idempotent: a ten-digit number that begins with 91 loses
   * those digits and is rejected, so a value accepted once can be refused when fed back.
   */
  lemma MobileNotIdempotent()
    ensures ValidateMobile("919198765432") == Ok("9198765432")
    ensures ValidateMobile("9198765432") == Err(InvalidMobile)
  {
    var twice := "9198765432";
    assert AllDigits(twice) by {
      forall k | 0 <= k < |twice| ensures IsDigit(twice[k]) { }
    }
    assert HasCodePrefix(twice);
    assert "91" + twice == "919198765432";
    CanonicalForms(twice);
  }

  /** Only one prefix goes: a doubled "91" or "+91" leaves twelve characters, which are refused. */
  lemma OnePrefixOnly(d: string)
    requires |d| == 10 && AllDigits(d)
    ensures ValidateMobile("9191" + d) == Err(InvalidMobile)
    ensures ValidateMobile("+91+91" + d) == Err(InvalidMobile)
    ensures ValidateMobile("+9191" + d) == Err(InvalidMobile)
  {
    assert |("9191" + d)[2..]| == 12;
    assert |("+91+91" + d)[3..]| == 13;
    assert |("+9191" + d)[3..]| == 12;
  }

  /** The regex alone admits a trailing newline, which stays in the returned value. */
  lemma TrailingNewlineAccepted()
    ensures ValidateMobile("9876543210\n") == Ok("9876543210\n")
  {
    var s := "9876543210\n";
    assert AllDigits(s[..10]);
  }

  /**
   * A DRF CharField with trimming on: a blank (all-whitespace) value is refused, the
   * rest is stripped, held to max_length and then refused if it carries a NUL
   * character (the field's ProhibitNullCharactersValidator runs after MaxLengthValidator).
   */
  function CleanCharField(raw: string, maxLength: nat): (r: Result<string, ValidationError>)
    ensures r.Ok? ==> r.value == Strip(raw) && r.value != [] && |r.value| <= maxLength && '\0' !in r.value
    ensures r.Err? <==> AllSpace(raw) || |Strip(raw)| > maxLength || '\0' in Strip(raw)
    ensures r.Err? ==> r.error == (if AllSpace(raw) then Blank
                                   else if |Strip(raw)| > maxLength then TooLong(maxLength)
                                   else NullCharacter)
  {
    var t := Strip(raw);
    if t == [] then Err(Blank)
    else if |t| > maxLength then Err(TooLong(maxLength))
    else if '\0' in t then Err(NullCharacter)
    else Ok(t)
  }

  /**
   * The mobile field of SendOTPSerializer and VerifyOTPSerializer: CharField(max_length=15),
   * then validate_mobile. Trimming removes the final newline the pattern would let
   * through, so every accepted mobile is exactly ten ASCII digits: the last ten
   * characters of the trimmed input, behind at most one country prefix.
   */
  function CleanMobileField(raw: string): (r: Result<string, ValidationError>)
    ensures r.Ok? ==> |r.value| == 10 && AllDigits(r.value)
    ensures r.Ok? ==> |Strip(raw)| >= 10 && Strip(raw)[|Strip(raw)| - 10..] == r.value
                      && Strip(raw)[..|Strip(raw)| - 10] in CountryPrefixes
    ensures r.Err? ==> r.error in {Blank, TooLong(15), NullCharacter, InvalidMobile}
    ensures r.Err? && r.error == Blank <==> AllSpace(raw)
  {
    match CleanCharField(raw, 15)
    case Err(e) => Err(e)
    case Ok(t) =>
      TrimmedMobileTenDigits(t);
      ValidateMobile(t)
  }

  /** A value that does not end in whitespace cannot carry the newline `$` admits. */
  lemma TrimmedMobileTenDigits(t: string)
    requires t != [] && !IsSpace(t[|t| - 1])
    ensures ValidateMobile(t).Ok? ==> |ValidateMobile(t).value| == 10 && AllDigits(ValidateMobile(t).value)
  {
    var r := ValidateMobile(t);
    if r.Ok? {
      var v := r.value;
      // v is a suffix of t
      assert t[|t| - 1] == v[|v| - 1];
    }
  }

  /** Every way the app is meant to receive a number, padded with whitespace, is accepted as its ten digits. */
  lemma MobileFieldAcceptsPrefixedDigits(front: string, prefix: string, d: string, back: string)
    requires AllSpace(front) && AllSpace(back)
    requires |d| == 10 && AllDigits(d)
    requires prefix == "+91" || prefix == "91" || (prefix == "" && !HasCodePrefix(d))
    ensures CleanMobileField(front + prefix + d + back) == Ok(d)
  {
    var raw := front + prefix + d + back;
    var core := prefix + d;
    assert CleanCharField(raw, 15) == Ok(core) by {
      PaddedNumberStrips(front, prefix, d, back);
      NumberFreeOfNul(prefix, d);
    }
    assert ValidateMobile(core) == Ok(d) by { CanonicalForms(d); }
  }

  lemma NumberFreeOfNul(prefix: string, d: string)
    requires AllDigits(d)
    requires prefix == "+91" || prefix == "91" || prefix == ""
    ensures '\0' !in prefix + d
  {
    var core := prefix + d;
    forall k | 0 <= k < |core| ensures core[k] != '\0' {
      assert core[k] == '+' || IsDigit(core[k]);
    }
  }

  lemma PaddedNumberStrips(front: string, prefix: string, d: string, back: string)
    requires AllSpace(front) && AllSpace(back)
    requires |d| == 10 && AllDigits(d)
    requires prefix == "+91" || prefix == "91" || prefix == ""
    ensures Strip(front + prefix + d + back) == prefix + d
  {
    var core := prefix + d;
    assert !IsSpace(core[0]) by { assert core[0] == '+' || IsDigit(core[0]); }
    assert !IsSpace(core[|core| - 1]) by { assert core[|core| - 1] == d[9]; }
    assert front + prefix + d + back == front + core + back;
    StripOfPadded(front, core, back);
  }

  // ---------------------------------------------------------------------------
  // ProfileSerializer.validate_mobile
  // ---------------------------------------------------------------------------

  /** The value of an ASCII digit. */
  function DigitValue(c: char): nat
    requires IsDigit(c)
  {
    c as int - '0' as int
  }

  /** The ASCII digit for a value below ten. */
  function DigitChar(d: nat): (c: char)
    requires d < 10
    ensures IsDigit(c) && DigitValue(c) == d
  {
    var digits := "0123456789";
    assert forall k | 0 <= k < 10 :: digits[k] as int == '0' as int + k;
    digits[d]
  }

  /** The number a string of ASCII digits denotes, most significant digit first. */
  function DecimalValue(s: string): nat
    requires AllDigits(s)
  {
    if s == [] then 0 else 10 * DecimalValue(s[..|s| - 1]) + DigitValue(s[|s| - 1])
  }

  /** str(n) for a non-negative int. */
  function NatToDecimal(n: nat): (r: string)
    ensures |r| >= 1 && AllDigits(r)
  {
    if n < 10 then [DigitChar(n)] else NatToDecimal(n / 10) + [DigitChar(n % 10)]
  }

  /** Reading back what NatToDecimal writes gives the number again. */
  lemma {:induction false} NatToDecimalValue(n: nat)
    ensures DecimalValue(NatToDecimal(n)) == n
  {
    var s := NatToDecimal(n);
    if n < 10 {
      assert s[..|s| - 1] == [];
    } else {
      assert s[..|s| - 1] == NatToDecimal(n / 10);
      NatToDecimalValue(n / 10);
    }
  }

  /** So two different numbers are never written alike. */
  lemma NatToDecimalInjective(m: nat, n: nat)
    requires NatToDecimal(m) == NatToDecimal(n)
    ensures m == n
  {
    NatToDecimalValue(m);
    NatToDecimalValue(n);
  }

  /** str(i) for any int. */
  function IntToDecimal(i: int): string
  {
    if i < 0 then "-" + NatToDecimal(-i) else NatToDecimal(i)
  }

  function Pow10(k: nat): (p: nat)
    ensures p >= 1
  {
    if k == 0 then 1 else 10 * Pow10(k - 1)
  }

  /** A number with k+1 digits is written with k+1 characters. */
  lemma {:induction false} NatToDecimalLength(n: nat, k: nat)
    requires Pow10(k) <= n < Pow10(k + 1)
    ensures |NatToDecimal(n)| == k + 1
  {
    if k > 0 {
      NatToDecimalLength(n / 10, k - 1);
    }
  }

  /** A number below 10^k is written with at most k characters. */
  lemma {:induction false} NatToDecimalShort(n: nat, k: nat)
    requires k >= 1 && n < Pow10(k)
    ensures |NatToDecimal(n)| <= k
  {
    if n >= 10 {
      NatToDecimalShort(n / 10, k - 1);
    }
  }

  /**
   * ProfileSerializer.validate_mobile: an int (a bool is one too in Python) is
   * first written out in decimal; anything that is neither int nor str is refused.
   */
  function ValidateProfileMobile(value: PyValue): (r: Result<string, ValidationError>)
    ensures r == Err(MobileNotString) <==> value.PyNone? || value.PyOther?
    ensures value.PyStr? ==> r == ValidateMobile(value.s)
    ensures value.PyInt? && r.Ok? ==> Pow10(9) <= value.i && |r.value| == 10 && AllDigits(r.value)
    ensures value.PyBool? ==> r == Err(InvalidMobile)
  {
    match value
    case PyBool(b) =>
      LeadingSignRefused("True");
      LeadingSignRefused("False");
      ValidateMobile(if b then "True" else "False")
    case PyInt(i) =>
      DecimalMobileBounds(i);
      ValidateMobile(IntToDecimal(i))
    case PyStr(s) => ValidateMobile(s)
    case PyNone => Err(MobileNotString)
    case PyOther => Err(MobileNotString)
  }

  /**
   * The decimal form of an int is accepted only for an int of at least ten digits, and
   * then as exactly ten digits: a negative sign is refused, fewer than ten digits are
   * too short, and digits leave no room for the newline `$` admits.
   */
  lemma DecimalMobileBounds(i: int)
    ensures ValidateMobile(IntToDecimal(i)).Ok? ==>
              Pow10(9) <= i && |ValidateMobile(IntToDecimal(i)).value| == 10
              && AllDigits(ValidateMobile(IntToDecimal(i)).value)
  {
    var s := IntToDecimal(i);
    if i < 0 {
      assert s[0] == '-';
      LeadingSignRefused(s);
    } else {
      if i < Pow10(9) {
        NatToDecimalShort(i, 9);
      }
      var r := ValidateMobile(s);
      if r.Ok? {
        var v := r.value;
        // v is a suffix of the digits s
        assert v[|v| - 1] == s[|s| - 1];
      }
    }
  }

  /** A ten-digit int is accepted as its decimal digits unless those start with 91. */
  lemma IntMobileTenDigits(n: int)
    requires Pow10(9) <= n < Pow10(10)
    ensures |IntToDecimal(n)| == 10
    ensures ValidateProfileMobile(PyInt(n))
            == if HasCodePrefix(IntToDecimal(n)) then Err(InvalidMobile) else Ok(IntToDecimal(n))
  {
    NatToDecimalLength(n, 9);
    CanonicalForms(IntToDecimal(n));
  }

  /** A value that starts with neither a digit nor "+" keeps no prefix and fails the pattern. */
  lemma LeadingSignRefused(s: string)
    requires |s| > 0 && !IsDigit(s[0]) && s[0] != '+'
    ensures ValidateMobile(s) == Err(InvalidMobile)
  {
    assert StripCountryCode(s) == s;
    assert !TenDigits(s) by {
      if |s| >= 10 { assert s[..10][0] == s[0]; }
    }
  }

  /** The int and the string spelling of a number with country code give the same canonical form. */
  lemma IntAndStringAgree()
    ensures ValidateProfileMobile(PyInt(919876543210)) == Ok("9876543210")
    ensures ValidateProfileMobile(PyStr("+919876543210")) == Ok("9876543210")
    ensures ValidateProfileMobile(PyInt(9876543210)) == Ok("9876543210")
  {
    MobileExamples();
    DecimalWithCode();
    DecimalBare();
  }

  /** str(919876543210), unfolded a few digits at a time. */
  lemma DecimalWithCode()
    ensures IntToDecimal(919876543210) == "919876543210"
  {
    assert NatToDecimal(91) == "91";
    assert NatToDecimal(919) == "919";
    assert NatToDecimal(9198) == "9198";
    assert NatToDecimal(91987) == "91987";
    assert NatToDecimal(919876) == "919876";
    assert NatToDecimal(9198765) == "9198765";
    assert NatToDecimal(91987654) == "91987654";
    assert NatToDecimal(919876543) == "919876543";
    assert NatToDecimal(9198765432) == "9198765432";
    assert NatToDecimal(91987654321) == "91987654321";
    assert NatToDecimal(919876543210) == "919876543210";
  }

  /** str(9876543210), unfolded a few digits at a time. */
  lemma DecimalBare()
    ensures IntToDecimal(9876543210) == "9876543210"
  {
    assert NatToDecimal(98) == "98";
    assert NatToDecimal(987) == "987";
    assert NatToDecimal(9876) == "9876";
    assert NatToDecimal(98765) == "98765";
    assert NatToDecimal(987654) == "987654";
    assert NatToDecimal(9876543) == "9876543";
    assert NatToDecimal(98765432) == "98765432";
    assert NatToDecimal(987654321) == "987654321";
    assert NatToDecimal(9876543210) == "9876543210";
  }

  // ---------------------------------------------------------------------------
  // ProfileSerializer
  // ---------------------------------------------------------------------------

  /** The profile fields as the request carries them. */
  datatype ProfileInput = ProfileInput(name: string, age: string, mobile: PyValue,
                                       email: Option<string>, gender: string)

  /** The profile fields once validated. */
  datatype ProfileFields = ProfileFields(name: string, age: AgeBracket, mobile: string,
                                         email: Option<string>, gender: Gender)

  /**
   * A CharField declared without max_length (the booking's location and address, and
   * the profile's EmailField, whose address format is not modelled): trimmed, refused
   * when blank or when it carries a NUL character.
   */
  function CleanTextField(raw: string): (r: Result<string, ValidationError>)
    ensures r.Ok? ==> r.value == Strip(raw) && r.value != [] && '\0' !in r.value
    ensures r.Err? <==> AllSpace(raw) || '\0' in Strip(raw)
    ensures r.Err? ==> r.error == (if AllSpace(raw) then Blank else NullCharacter)
  {
    if AllSpace(raw) then Err(Blank)
    else if '\0' in Strip(raw) then Err(NullCharacter)
    else Ok(Strip(raw))
  }

  /**
   * ProfileSerializer.is_valid(): name is a CharField(max_length=150), age and gender
   * are choice fields, mobile goes through validate_mobile, email may be absent or null.
   */
  function ValidateProfile(p: ProfileInput): (r: Result<ProfileFields, ValidationError>)
    ensures r.Ok? <==> CleanCharField(p.name, 150).Ok? && ParseAge(p.age).Some?
                       && ValidateProfileMobile(p.mobile).Ok? && ParseGender(p.gender).Some?
                       && (p.email.Some? ==> CleanTextField(p.email.value).Ok?)
    ensures r.Ok? ==> r.value.name == Strip(p.name) && r.value.age.Label() == p.age
                      && r.value.gender.Label() == p.gender
                      && r.value.mobile == ValidateProfileMobile(p.mobile).value
                      && r.value.email == (if p.email.Some? then Some(Strip(p.email.value)) else None)
  {
    var name := CleanCharField(p.name, 150);
    var age := ParseAge(p.age);
    var mobile := ValidateProfileMobile(p.mobile);
    var gender := ParseGender(p.gender);
    var email := if p.email.Some? then CleanTextField(p.email.value) else Ok("");
    if name.Err? then Err(name.error)
    else if age.None? then Err(UnknownChoice)
    else if mobile.Err? then Err(mobile.error)
    else if email.Err? then Err(email.error)
    else if gender.None? then Err(UnknownChoice)
    else Ok(ProfileFields(name.value, age.value, mobile.value,
                          if p.email.Some? then Some(email.value) else None, gender.value))
  }

  // ---------------------------------------------------------------------------
  // EventBookingSerializer
  // ---------------------------------------------------------------------------

  /**
   * EventBookingSerializer.validate: only a present ticket is checked, and it is
   * refused exactly when more tickets are asked for than are available.
   */
  function ValidateQuantity(ticket: Option<Ticket>, quantity: int): (r: Result<(), ValidationError>)
    ensures r.Err? <==> ticket.Some? && quantity > ticket.value.available
    ensures r.Err? ==> r.error == OnlyAvailable(ticket.value.available)
  {
    if ticket.Some? && quantity > ticket.value.available then Err(OnlyAvailable(ticket.value.available))
    else Ok(())
  }

  /** The admission boundary: asking for exactly what is available passes, one more fails with the available count. */
  lemma QuantityBoundary(t: Ticket, q: int)
    ensures ValidateQuantity(Some(t), q).Err? <==> q > t.available
    ensures ValidateQuantity(Some(t), t.available) == Ok(())
    ensures ValidateQuantity(Some(t), t.available + 1) == Err(OnlyAvailable(t.available))
    ensures ValidateQuantity(None, q) == Ok(())
  {
  }

  /** The booking fields as the request carries them (missing location/address arrive as ""). */
  datatype BookingInput = BookingInput(event: int, ticket: int, quantity: int, attendingTime: string,
                                       cabRequired: bool, location: string, address: string)

  /** The booking fields once validated. */
  datatype BookingFields = BookingFields(event: nat, ticket: nat, quantity: nat,
                                         attendingTime: AttendingTime, cabRequired: bool,
                                         location: string, address: string)

  /** The field-level checks of EventBookingSerializer, before its validate() runs. */
  predicate BookingFieldsWellFormed(b: BookingInput, eventCount: nat, tickets: seq<Ticket>) {
    && 0 <= b.event < eventCount
    && 0 <= b.ticket < |tickets|
    && b.quantity >= 0
    && ParseAttendingTime(b.attendingTime).Some?
    && CleanTextField(b.location).Ok?
    && CleanTextField(b.address).Ok?
  }

  /**
   * EventBookingSerializer.is_valid(): event and ticket must be existing primary keys,
   * the quantity a non-negative int, the time slot one of the choices, location and
   * address non-blank and free of NUL characters; then validate() holds the quantity to the ticket's availability.
   * The ticket is not required to belong to the event.
   */
  function ValidateBooking(b: BookingInput, eventCount: nat, tickets: seq<Ticket>): (r: Result<BookingFields, ValidationError>)
    ensures r.Ok? <==> BookingFieldsWellFormed(b, eventCount, tickets) && b.quantity <= tickets[b.ticket].available
    ensures BookingFieldsWellFormed(b, eventCount, tickets) && r.Err? ==> r.error == OnlyAvailable(tickets[b.ticket].available)
    ensures r.Ok? ==> && r.value.event == b.event && r.value.ticket == b.ticket
                      && r.value.quantity == b.quantity && r.value.quantity <= tickets[r.value.ticket].available
                      && r.value.attendingTime.Label() == b.attendingTime
                      && r.value.location == Strip(b.location) && r.value.address == Strip(b.address)
                      && r.value.cabRequired == b.cabRequired
  {
    if !(0 <= b.event < eventCount) then Err(UnknownEvent)
    else if !(0 <= b.ticket < |tickets|) then Err(UnknownTicket)
    else if b.quantity < 0 then Err(NegativeQuantity)
    else if ParseAttendingTime(b.attendingTime).None? then Err(UnknownChoice)
    else if CleanTextField(b.location).Err? then Err(CleanTextField(b.location).error)
    else if CleanTextField(b.address).Err? then Err(CleanTextField(b.address).error)
    else match ValidateQuantity(Some(tickets[b.ticket]), b.quantity)
      case Err(e) => Err(e)
      case Ok(_) =>
        Ok(BookingFields(b.event, b.ticket, b.quantity, ParseAttendingTime(b.attendingTime).value,
                         b.cabRequired, Strip(b.location), Strip(b.address)))
  }

  /** A request that leaves out location or address (so the view passes "") is refused as blank. */
  lemma MissingLocationRefused(b: BookingInput, eventCount: nat, tickets: seq<Ticket>)
    requires b.location == "" || b.address == ""
    ensures ValidateBooking(b, eventCount, tickets).Err?
  {
  }
}
