# Event registration backend: a verified model

This project models the core of an event-registration backend in Dafny. The backend is a Django REST service. A visitor asks for a one-time password (OTP) by SMS for their mobile number and then verifies it. They look up the next active event and its tickets. Finally they submit a profile together with a ticket booking.

The model covers:

- **Input validation** (`serializers.dfy`):
  - Mobile-number canonicalisation: one leading `+91` or `91` is removed, then exactly ten digits must remain.
  - The character-field cleaning that runs before it.
  - The profile serializer's int/str handling of the mobile.
  - The booking serializer's availability check.
- **Records and user manager** (`models.dfy`, `manager.dfy`):
  - The records and their choice sets.
  - The whitespace-stripping normaliser.
  - The `create_user` / `create_superuser` guards.
- **The store** (`database.dfy`):
  - A value with one sequence per table; ids are positions.
  - Its unique and one-to-one constraints.
  - The queries the handlers issue.
- **The four request handlers** (`views.dfy`) as transitions of the store: SendOTP, VerifyOTP, the latest-event query and the profile-and-booking request.
- **The store as a mutable object** (`store.dfy`): class `Storage.Store`. Each method that changes the tables updates them in place, is proved to produce exactly the state and answer of the corresponding transition, and keeps the store's constraints. The event query reads the tables and changes nothing.

Time is an integer number of seconds, and dates are day numbers. The OTP lifetime is 600 seconds. The clock, the random OTP code and the SMS outcome are parameters.

## Model

| member | source | states |
|---|---|---|
| Models.Strip | event_registration/models.py:39-44 | the result has no whitespace at either end, and it is empty exactly when the input is all whitespace |
| Models.StripOfPadded | event_registration/models.py:39-44 | stripping removes exactly the whitespace padding around a core that has none at its edges |
| Models.StripIdempotent | event_registration/models.py:39-44 | normalising an already-normalised mobile changes nothing |
| Models.ParseAge | event_registration/models.py:101-106 | an age is accepted exactly when it is one of the four option labels, and maps to that option |
| Models.ParseGender | event_registration/models.py:108-112 | a gender is accepted exactly when it is one of the three option labels |
| Models.ParseAttendingTime | event_registration/models.py:128-131 | an attending time is accepted exactly when it is 4PM-8PM or 8PM-12PM |
| Models.ChoiceLabelsRoundTrip | event_registration/models.py:101-112 | every option parses back from its label, so no two options share a label |
| Serializers.StripCountryCode | event_registration/serializers.py:10 | the result is a suffix of the input; what was removed is "", "91" or "+91"; the input is kept exactly when it starts with neither |
| Serializers.ValidateMobile | event_registration/serializers.py:8-16 | an accepted value is the input minus one country prefix, made of ten digits (plus a final newline, which `$` admits); every refusal is the invalid-mobile error |
| Serializers.CanonicalForms | event_registration/serializers.py:10-16 | `+91`+d and `91`+d give d for any ten digits d; d alone gives d unless d starts with 91 |
| Serializers.MobileExamples | event_registration/serializers.py:10-16 | "+919876543210", "919876543210" and "9876543210" all give "9876543210"; "98765" is refused |
| Serializers.MobileNotIdempotent | event_registration/serializers.py:10-13 | "919198765432" is accepted as "9198765432", which is itself refused |
| Serializers.OnePrefixOnly | event_registration/serializers.py:10 | a doubled prefix is not removed twice, so the value is refused |
| Serializers.TrailingNewlineAccepted | event_registration/serializers.py:13 | the pattern alone accepts ten digits followed by a newline |
| Serializers.CleanCharField | event_registration/serializers.py:6 | refused exactly when the value is blank, its stripped form is longer than the limit, or that form carries a NUL character, in that order of precedence; otherwise the stripped value is returned |
| Serializers.CleanMobileField | event_registration/serializers.py:6-16 | through the SendOTP/VerifyOTP field, every accepted mobile is exactly ten ASCII digits, the last ten of the trimmed input behind at most one country prefix; refusals are blank (exactly for all-whitespace input), too long, NUL character, or invalid |
| Serializers.MobileFieldAcceptsPrefixedDigits | event_registration/serializers.py:19-27 | any ten digits, with `+91`, `91` or no prefix and padded with whitespace, are accepted as those ten digits (bare digits only when they do not start with 91) |
| Serializers.NatToDecimalValue | event_registration/serializers.py:52-53 | reading back the decimal string written for n gives n, for every n |
| Serializers.NatToDecimalInjective | event_registration/serializers.py:52-53 | two different numbers are never written as the same string |
| Serializers.NatToDecimalLength | event_registration/serializers.py:52-53 | a number from 10^k up to 10^(k+1) is written with k+1 digits |
| Serializers.NatToDecimalShort | event_registration/serializers.py:52-53 | a number below 10^k is written with at most k characters |
| Serializers.DecimalMobileBounds | event_registration/serializers.py:52-63 | the decimal form of an int is accepted only when the int is at least 10^9, and then as ten digits: a negative sign and fewer than ten digits are refused |
| Serializers.ValidateProfileMobile | event_registration/serializers.py:47-63 | "not a string" exactly for None and values that are neither int nor str; a string goes through the mobile check; an accepted int has at least ten digits and gives exactly ten ASCII digits (no trailing newline); a bool is refused |
| Serializers.IntMobileTenDigits | event_registration/serializers.py:52-63 | a ten-digit int is accepted as its decimal digits unless they start with 91 |
| Serializers.LeadingSignRefused | event_registration/serializers.py:58-61 | a value starting with neither a digit nor "+" is refused |
| Serializers.IntAndStringAgree | event_registration/serializers.py:52-63 | 919876543210, "+919876543210" and 9876543210 all give "9876543210" |
| Serializers.CleanTextField | event_registration/serializers.py:69-71 | a CharField without max_length (location, address, and the profile's email) is refused exactly when blank or when its stripped form carries a NUL character; otherwise it is stripped |
| Serializers.ValidateProfile | event_registration/serializers.py:40-63 | the profile is accepted exactly when name, age, mobile, email (if given) and gender each are; then it carries the stripped name, the chosen options and the canonical mobile |
| Serializers.ValidateQuantity | event_registration/serializers.py:80-94 | refused exactly when a ticket is present and more are asked for than it has available, reporting that count |
| Serializers.QuantityBoundary | event_registration/serializers.py:80-94 | the check refuses exactly when more tickets are asked for than are available, reporting the count; asking for exactly the available count passes; no ticket means no check |
| Serializers.ValidateBooking | event_registration/serializers.py:65-94 | the booking is accepted exactly when its fields are well formed (location and address non-blank and NUL-free among them) and the quantity is within the ticket's availability; a well-formed refusal reports the available count; the ticket need not belong to the event |
| Serializers.MissingLocationRefused | event_registration/views.py:184-185 | a booking without location or address is refused as blank |
| Database.FindUser | event_registration/views.py:193-197 | the user found holds the mobile; none is found exactly when no user holds it |
| Database.FindUserUnique | event_registration/views.py:193-197 | under the unique constraint, the user holding a mobile is the one found |
| Database.AddUserPreservesValid | event_registration/models.py:47 | adding a user whose mobile is free keeps every constraint |
| Database.AddProfilePreservesValid | event_registration/models.py:114 | saving the first profile of an existing user keeps at most one profile per user |
| Database.AddBookingPreservesValid | event_registration/models.py:133-135 | saving the first booking of an existing user, for an existing event and ticket, keeps at most one booking per user |
| Database.LatestActiveOtp | event_registration/views.py:83 | the OTP selected is an active OTP of the user, not older than any other; none exactly when the user has no active OTP |
| Database.LatestActiveOtpUnique | event_registration/views.py:83 | the latest active OTP is the only active OTP not older than all the others |
| Database.EarliestUpcoming | event_registration/views.py:110 | the event selected is active and dated today or later, with no upcoming event dated earlier; none exactly when no event is upcoming |
| Database.TicketsOf | event_registration/views.py:120 | exactly the event's tickets, in increasing id order |
| Database.AvailableFor | event_registration/views.py:127 | the sum is zero exactly when every ticket of the event has zero available, and bounds each one's count |
| UserManager.CreateUser | event_registration/models.py:11-23 | an empty mobile is refused; a taken stripped mobile is refused; on both refusals nothing changes; otherwise exactly one active user with the stripped mobile is appended |
| UserManager.CreateUserPreservesValid | event_registration/models.py:11-23 | creating a user keeps mobiles unique |
| UserManager.BlankMobileStoredEmpty | event_registration/models.py:15-19 | the emptiness guard runs before stripping, so a whitespace-only mobile is stored as "" |
| UserManager.CreateSuperuser | event_registration/models.py:25-37 | a staff flag given as anything but True is refused first, then such a superuser flag; a refusal stores nothing; a success appends one active staff superuser with the stripped mobile |
| UserManager.SuperuserDefaults | event_registration/models.py:25-37 | with no flags given, a superuser is a user created as staff and superuser |
| UserManager.SuperuserTruthyRefused | event_registration/models.py:32-35 | 1 and "True" are refused, since only the bool True passes |
| Views.GetOrCreateUser | event_registration/views.py:28 | the user returned holds the mobile; it was created exactly when none did, and then it is appended |
| Views.SendOtp | event_registration/views.py:17-68 | a refused mobile is answered with the serializer's error and changes nothing; otherwise one active OTP with the code is appended, bound to a user holding the cleaned mobile, which an OtpSent answer reports as ten digits |
| Views.IssueOtp | event_registration/views.py:28-57 | exactly one active OTP is appended, created now and expiring 600 seconds later, bound to a user holding the mobile; at most that user is added; the answer reports whether the user is new, or the SMS failure |
| Views.SmsFailureKeepsOtp | event_registration/views.py:37-57 | the stored user and OTP are the same whether or not the SMS goes out; only the answer differs |
| Views.IssueOtpUser | event_registration/views.py:28-53 | afterwards exactly one user holds the mobile; it is new exactly when none did before |
| Views.IssueOtpAppends | event_registration/views.py:31-37 | exactly one active OTP is appended for that user, expiring 600 seconds after now; earlier OTPs and the other tables are unchanged |
| Views.IssuedOtpIsLatest | event_registration/views.py:83 | the OTP just issued is the one a following verification selects |
| Views.IssueOtpPreservesValid | event_registration/views.py:28-37 | issuing keeps every constraint: the new OTP names an existing user |
| Views.SendOtpPreservesValid | event_registration/views.py:17-68 | SendOTP keeps every constraint |
| Views.VerifyOtp | event_registration/views.py:70-103 | the serializer's error exactly for a refused mobile; every answer but success leaves the store unchanged |
| Views.CheckOtp | event_registration/views.py:80-101 | success exactly when the user exists, has an active OTP, and the latest one carries the code and has not expired; success deactivates that OTP and changes nothing else; every failure changes nothing |
| Views.CheckOtpLookupFailures | event_registration/views.py:80-101 | "User does not exist." exactly for an unknown mobile; "No active OTP" exactly for a known user with no active OTP |
| Views.CheckOtpDecision | event_registration/views.py:86-96 | a wrong code is invalid even when expired; a right but expired code is expired and stays active; success exactly for a right code in time, and it deactivates only that OTP |
| Views.OlderOtpIgnored | event_registration/views.py:83-86 | an older active OTP with the entered code does not make a wrong latest code pass |
| Views.OnlyLatestDecides | event_registration/views.py:83 | changing the other OTPs, while the latest stays latest, does not change the answer |
| Views.ReplayRejected | event_registration/views.py:86-92 | after success the OTP is inactive and can no longer be selected; if it was the only active one, a replay finds no active OTP |
| Views.CheckOtpPreservesValid | event_registration/views.py:80-101 | checking a code keeps every constraint |
| Views.VerifyOtpPreservesValid | event_registration/views.py:70-103 | VerifyOTP keeps every constraint |
| Views.OtpActiveIsOneWay | event_registration/views.py:86-92 | OTP rows are only appended or deactivated; none becomes active again |
| Views.LatestActiveEvent | event_registration/views.py:105-141 | a listing shows an upcoming event no later than any other, exactly its tickets, at least one with availability left; "no active event" exactly when none is upcoming; "no tickets" exactly when the selected event has no ticket with availability |
| Views.Book | event_registration/views.py:163-234 | a refused profile is answered with its error and saves nothing; a booking adds one profile and one booking, both for the user holding the profile's canonical mobile |
| Views.BookFor | event_registration/views.py:189-212 | users, OTPs, events and tickets never change; no user gives that refusal with nothing saved; a refused booking leaves the new profile saved; a booking is saved exactly when the user exists, has no profile and no booking, and the booking validates, and then both rows are that user's with the quantity within availability |
| Views.TicketNeedNotMatchEvent | event_registration/views.py:203-212 | a ticket of one event is booked for another without complaint |
| Views.BookForPreservesValid | event_registration/views.py:189-212 | at most one profile and one booking per user remain |
| Views.BookPreservesValid | event_registration/views.py:163-234 | the booking request keeps every constraint |
| Views.UsersAndProfilesOnlyGrow | event_registration/views.py:17-234 | every handler and the user manager keep the earlier users and profiles as a prefix of the new ones |
| Views.OrphanProfileLocksOut | event_registration/views.py:165-234 | after a refused booking the profile stays saved and no booking is added; in every later valid state that kept the users and profiles, every request whose profile carries that mobile is refused on the profile save, whatever its other fields and booking |
| Views.OrphanProfileExample | event_registration/views.py:184-204 | a valid profile whose booking leaves out the location is refused, but the profile is saved |
| Views.BookAtomic | event_registration/views.py:165 | the same answers as the handler as written; any refusal leaves the store unchanged; a success saves one profile and one booking for the user holding the mobile |
| Views.BookAtomicRetry | event_registration/views.py:165 | after a refused booking, the same profile with a valid booking succeeds |
| Views.BookAtomicPreservesValid | event_registration/views.py:165 | the all-or-nothing request keeps every constraint |
| Storage.Store.constructor | event_registration/models.py:74-92 | a store with the given events and tickets, and no other rows, satisfying the constraints |
| Storage.Store.CreateUser | event_registration/models.py:11-23 | leaves the tables and answer of UserManager.CreateUser, keeping the constraints |
| Storage.Store.CreateSuperuser | event_registration/models.py:25-37 | fills in the flag defaults in place, then leaves the tables and answer of UserManager.CreateSuperuser |
| Storage.Store.SendOtp | event_registration/views.py:17-68 | leaves the tables and answer of Views.SendOtp, keeping the constraints |
| Storage.Store.IssueOtp | event_registration/views.py:28-57 | appends the user if new, then the OTP, leaving the tables and answer of Views.IssueOtp and keeping the constraints |
| Storage.Store.VerifyOtp | event_registration/views.py:70-103 | leaves the tables and answer of Views.VerifyOtp, keeping the constraints |
| Storage.Store.CheckOtp | event_registration/views.py:80-101 | deactivates the latest OTP in place, leaving the tables and answer of Views.CheckOtp and keeping the constraints |
| Storage.Store.Book | event_registration/views.py:163-234 | leaves the tables and answer of Views.BookAtomic, keeping the constraints |
| Storage.Store.BookFor | event_registration/views.py:189-212 | gives the answer of Views.BookFor; saves its rows only on success; keeps the constraints |
| Storage.Store.LatestActiveEvent | event_registration/views.py:105-141 | answers as Views.LatestActiveEvent and changes nothing |

## Left out

- Sending the SMS and its Twilio client (event_registration/views.py:39-47): external I/O. Its outcome is the `smsDelivered` parameter. The OTP row is written before it.
- OTP generation and JWT tokens: event_registration/utility.py is not part of this model. The code is a parameter in 100000..999999.
- Each request reads the clock more than once (`created_at` and `expires_at` come from separate reads). The model uses one `now` per request.
- Serializers.ValidateMobile: `\d` is taken as the ASCII digits. Python's `re` also matches other Unicode decimal digits.
- Serializers.ValidateProfileMobile: models `validate_mobile` as called with the raw request value. The serializer field generated for `Profile.mobile` (event_registration/models.py:117, a `PositiveBigIntegerField`) first coerces the value with `int()` and a lower bound of 0. That coercion is not modelled.
- Serializers.ValidateProfile: because of that missing coercion, the model accepts `PyStr("0123456789")` as "0123456789", where the view turns it into the int 123456789 and refuses it as too short. The model also refuses `PyStr(" 9876543210")` for its leading space, where `int()` ignores the space and the view accepts 9876543210. Strings that `int()` cannot parse (the view's integer-field error) are sent to the mobile check instead.
- Views.Book: takes its profile verdict from Serializers.ValidateProfile, so it differs from the view on the same inputs.
- Views.VerifyOtp: the code is an `int` parameter. `VerifyOTPSerializer.otp = serializers.IntegerField()` (event_registration/serializers.py:20) answers a missing or non-integer otp with a 400 before any lookup. The model cannot represent that input, so its "serializer error exactly for a refused mobile" leaves that case out.
- Serializers.CleanMobileField: takes the mobile as a string. The DRF `CharField` (event_registration/serializers.py:6,19) also accepts a JSON number, which it turns into its decimal string. It refuses a missing mobile as required and a null one as null. None of these is modelled.
- Serializers.ValidateProfile: the email (event_registration/serializers.py:45) goes through Serializers.CleanTextField, so only blankness, trimming and the NUL-character refusal are modelled. The `EmailValidator` behind `EmailField` also refuses a value that is not an address or is longer than 320 characters; neither check is modelled.
- The DRF range limits on integer fields, e.g. ticket_quantity up to 2147483647: only the non-negative bound is modelled.
- Uniqueness of a booking's event and ticket is not modelled:
  - models.py:133,135 make them one-to-one.
  - Migration 0005 makes them foreign keys.
  - Only the per-user one-to-one constraints are modelled.
- Views.BookFor: the payment fields (event_registration/models.py:141-146) are not modelled, and the successful booking rests on an assumed schema:
  - `payment_amount = models.FloatField()` (models.py:143) is NOT NULL with no default.
  - event_registration/serializers.py:68 makes it optional, and the view never sets it.
  - So, as written, the booking INSERT would carry NULL and raise IntegrityError. Django would then roll back the whole atomic block, profile included, and the view would answer 500.
  - The model instead takes the booking save to succeed. The `Booked` answer, and what Views.BookFor, Views.Book, Views.BookAtomic and Views.BookAtomicRetry promise about it, holds only for a schema where that column accepts the missing value. The refusal paths, and with them the finding below, do not depend on it.
- Serializers.ValidateBooking: the lengths of the database columns are not checked. `location` is `max_length=50` and `address` is `max_length=400` (event_registration/models.py:139-140), but the serializer declares both as plain `CharField`s (event_registration/serializers.py:69,71) with no limit. On a database that enforces column lengths, a longer value fails at the INSERT instead. The `Booked` path of Views.BookFor and Views.Book assumes they fit.
- Serializers.ValidateProfile: the `email` column is an `EmailField` with Django's default `max_length=254` (event_registration/models.py:118). The declared serializer field has no such limit, and the model does not check it either.
- UserManager.CreateUser: `User.mobile` is `max_length=15` (event_registration/models.py:47), and `create_user` does not validate it. The model stores a longer mobile as given; a database that enforces the length would refuse the save. Through the views, mobiles are always ten digits.
- `password`, `set_password`, `date_joined`, names, and other keyword arguments passed to `create_user`: irrelevant to the guards. Only the staff and superuser flags are modelled.
- Inventory: no handler decrements `total_tickets_available` and there is no payment step, so neither is modelled. The callback, payment-status, token and logout routes in event_registration/urls.py have no handler in views.py, and neither does the user-event-booking route (event_registration/urls.py:16, `UserEventBookingsView`).
- Ties in `latest('created_at')` and `order_by('event_date')` are left open by the database:
  - Among equal times, the model picks the higher OTP id.
  - Among equal dates, it picks the lower event id.
- Database.TicketsOf: `Ticket.objects.filter(event=event).distinct()` (event_registration/views.py:120) has no `order_by`, so the database may list the tickets in any order. The model lists them by increasing id. Only which tickets are listed is promised.
- HTTP status codes, `print` logging and the mapping of exceptions to responses are left out. Each outcome is a constructor of the handler's reply type.
- Storage.Store.Book follows the all-or-nothing Views.BookAtomic rather than the code as written (see Findings). Views.Book models the code as written.
- Storage.Store.BookFor saves its profile and booking only on success, in line with the corrected handler: unlike Views.BookFor, a refused booking leaves no profile behind.

## Findings

| source | as written | input that shows it | evidently intended | confidence | as-written member | corrected member |
|---|---|---|---|---|---|---|
| event_registration/views.py:165-234 | the `transaction.atomic` handler catches every exception itself, so a booking refused after the profile save still commits the profile | a valid profile for an existing user with a booking that omits `location` | profile and booking saved together or not at all; a retry with a valid booking succeeds | not executed | Views.OrphanProfileLocksOut | Views.BookAtomic |
