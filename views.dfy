/**
 * The request handlers of event_registration/views.py as transitions of the store:
 * SendOTP.post, VerifyOTP.post, LatestActiveEventView.get and
 * CreateProfileAndBookingView.post. The clock is a parameter (`now` in seconds,
 * `today` as a day number), as are the generated code and whether the SMS went out.
 * Each handler first validates its input; what it then does with the validated
 * input is a function of its own, about which the lemmas speak.
 */
module Views {
  import opened Wrappers
  import opened Models
  import opened Serializers
  import opened Database
  import UserManager

  /** timedelta(minutes=10), in seconds. */
  const OtpLifetime: int := 600

  /** The range of generate_otp (random.randint(100000, 999999)). */
  predicate IsOtpCode(code: nat) { 100000 <= code <= 999999 }

  // ---------------------------------------------------------------------------
  // SendOTP
  // ---------------------------------------------------------------------------

  datatype SendReply =
    | OtpSent(mobile: string, isNewUser: bool)  // 200 "OTP sent successfully"
    | SendInvalid(error: ValidationError)       // 400 with the serializer's errors
    | SmsFailed                                 // 500: the SMS call raised after the OTP was saved

  /** User.objects.get_or_create(mobile=...): the users, the user's id, and whether it was created. */
  function GetOrCreateUser(users: seq<User>, mobile: string): (r: (seq<User>, nat, bool))
    ensures r.1 < |r.0| && r.0[r.1].mobile == mobile
    ensures r.2 <==> FindUser(users, mobile).None?
    ensures r.2 ==> r.0 == users + [NewUser(mobile)] && r.1 == |users|
    ensures !r.2 ==> r.0 == users && Some(r.1) == FindUser(users, mobile)
  {
    match FindUser(users, mobile)
    case Some(u) => (users, u, false)
    case None => (users + [NewUser(mobile)], |users|, true)
  }

  /**
   * SendOTP.post: a mobile the serializer refuses is answered with its error and
   * changes nothing; any other issues an OTP for the cleaned ten-digit mobile, bound
   * to a user holding it.
   */
  function SendOtp(db: Db, rawMobile: string, code: nat, now: int, smsDelivered: bool): (t: Transition<SendReply>)
    requires IsOtpCode(code)
    ensures t.reply.SendInvalid? <==> CleanMobileField(rawMobile).Err?
    ensures t.reply.SendInvalid? ==> t == Transition(db, SendInvalid(CleanMobileField(rawMobile).error))
    ensures !t.reply.SendInvalid? ==>
              && |t.after.otps| == |db.otps| + 1
              && var o := t.after.otps[|db.otps|];
                 o.user < |t.after.users| && t.after.users[o.user].mobile == CleanMobileField(rawMobile).value
                 && o.code == code && o.active
    ensures t.reply.OtpSent? ==> |t.reply.mobile| == 10 && AllDigits(t.reply.mobile)
  {
    match CleanMobileField(rawMobile)
    case Err(e) => Transition(db, SendInvalid(e))
    case Ok(mobile) => IssueOtp(db, mobile, code, now, smsDelivered)
  }

  /**
   * Get or create the mobile's user, save an active OTP expiring OtpLifetime seconds
   * from now, then send it. Exactly one OTP row is appended, bound to a user holding
   * the mobile; the users grow by that user at most, and nothing else changes. The
   * OTP row is written before the send, so it stays when the send fails, and the
   * answer reports whether the user is new.
   */
  function IssueOtp(db: Db, mobile: string, code: nat, now: int, smsDelivered: bool): (t: Transition<SendReply>)
    ensures t.reply == if smsDelivered then OtpSent(mobile, FindUser(db.users, mobile).None?) else SmsFailed
    ensures |t.after.otps| == |db.otps| + 1 && t.after.otps[..|db.otps|] == db.otps
    ensures var o := t.after.otps[|db.otps|];
            && o.user < |t.after.users| && t.after.users[o.user].mobile == mobile
            && o.code == code && o.active && o.createdAt == now && o.expiresAt == now + OtpLifetime
    ensures t.after.users == db.users || t.after.users == db.users + [NewUser(mobile)]
    ensures t.after == db.(users := t.after.users, otps := t.after.otps)
  {
    var (users, user, created) := GetOrCreateUser(db.users, mobile);
    var after := db.(users := users, otps := db.otps + [Otp(user, code, now, now + OtpLifetime, true)]);
    assert after.otps[..|db.otps|] == db.otps;
    Transition(after, if smsDelivered then OtpSent(mobile, created) else SmsFailed)
  }

  /** Whether the SMS went out decides only the answer: the user and the OTP are stored either way. */
  lemma SmsFailureKeepsOtp(db: Db, mobile: string, code: nat, now: int)
    ensures IssueOtp(db, mobile, code, now, false).after == IssueOtp(db, mobile, code, now, true).after
    ensures IssueOtp(db, mobile, code, now, false).reply == SmsFailed
    ensures IssueOtp(db, mobile, code, now, true).reply == OtpSent(mobile, FindUser(db.users, mobile).None?)
  {
  }

  /**
   * After issuing, exactly one user holds the mobile, it was created iff none did
   * before (which is_new_user reports), and no other user changed.
   */
  lemma IssueOtpUser(db: Db, mobile: string, code: nat, now: int, smsDelivered: bool)
    requires Valid(db)
    ensures var after := IssueOtp(db, mobile, code, now, smsDelivered).after;
            && UniqueMobiles(after.users)
            && FindUser(after.users, mobile).Some?
            && (FindUser(db.users, mobile).None? ==> after.users == db.users + [NewUser(mobile)])
            && (FindUser(db.users, mobile).Some? ==> after.users == db.users)
  {
    if FindUser(db.users, mobile).None? {
      AddUserPreservesValid(db, NewUser(mobile));
    }
  }

  /**
   * Issuing appends exactly one OTP: the mobile's user's, active, created now and
   * expiring OtpLifetime later; every earlier OTP and every other table is unchanged.
   */
  lemma IssueOtpAppends(db: Db, mobile: string, code: nat, now: int, smsDelivered: bool)
    requires Valid(db)
    ensures var after := IssueOtp(db, mobile, code, now, smsDelivered).after;
            var user := FindUser(after.users, mobile).value;
            && after.otps == db.otps + [Otp(user, code, now, now + OtpLifetime, true)]
            && after.events == db.events && after.tickets == db.tickets
            && after.profiles == db.profiles && after.bookings == db.bookings
  {
    var after := IssueOtp(db, mobile, code, now, smsDelivered).after;
    var (_, user, _) := GetOrCreateUser(db.users, mobile);
    IssueOtpUser(db, mobile, code, now, smsDelivered);
    FindUserUnique(after.users, mobile, user);
  }

  /** The OTP just issued is the one a verification right after it looks at. */
  lemma IssuedOtpIsLatest(db: Db, mobile: string, code: nat, now: int, smsDelivered: bool)
    requires Valid(db)
    requires forall k :: 0 <= k < |db.otps| ==> db.otps[k].createdAt <= now
    ensures var after := IssueOtp(db, mobile, code, now, smsDelivered).after;
            LatestActiveOtp(after.otps, FindUser(after.users, mobile).value) == Some(|db.otps|)
  {
    var after := IssueOtp(db, mobile, code, now, smsDelivered).after;
    IssueOtpAppends(db, mobile, code, now, smsDelivered);
    var user := FindUser(after.users, mobile).value;
    LatestActiveOtpUnique(after.otps, user, |db.otps|);
  }

  /** Issuing an OTP keeps the store's constraints: the new OTP names an existing user. */
  lemma IssueOtpPreservesValid(db: Db, mobile: string, code: nat, now: int, smsDelivered: bool)
    requires Valid(db)
    ensures Valid(IssueOtp(db, mobile, code, now, smsDelivered).after)
  {
    var after := IssueOtp(db, mobile, code, now, smsDelivered).after;
    IssueOtpUser(db, mobile, code, now, smsDelivered);
    IssueOtpAppends(db, mobile, code, now, smsDelivered);
    assert |db.users| <= |after.users|;
    assert forall k :: 0 <= k < |db.otps| ==> after.otps[k] == db.otps[k];
  }

  /** SendOTP keeps the store's constraints. */
  lemma SendOtpPreservesValid(db: Db, rawMobile: string, code: nat, now: int, smsDelivered: bool)
    requires Valid(db) && IsOtpCode(code)
    ensures Valid(SendOtp(db, rawMobile, code, now, smsDelivered).after)
  {
    match CleanMobileField(rawMobile)
    case Err(_) =>
    case Ok(mobile) => IssueOtpPreservesValid(db, mobile, code, now, smsDelivered);
  }

  // ---------------------------------------------------------------------------
  // VerifyOTP
  // ---------------------------------------------------------------------------

  datatype VerifyReply =
    | Verified                              // 200 "OTP verified successfully!"
    | VerifyInvalid(error: ValidationError) // 400 with the serializer's errors
    | UserDoesNotExist                      // 400 "User does not exist."
    | NoActiveOtp                           // 400 "No active OTP found for this user."
    | InvalidOtp                            // 400 "Invalid OTP."
    | OtpExpired                            // 400 "OTP has expired."

  /**
   * VerifyOTP.post: the serializer's error is answered exactly for a refused mobile;
   * every answer but success leaves the store as it was.
   */
  function VerifyOtp(db: Db, rawMobile: string, code: int, now: int): (t: Transition<VerifyReply>)
    ensures t.reply.VerifyInvalid? <==> CleanMobileField(rawMobile).Err?
    ensures t.reply != Verified ==> t.after == db
  {
    match CleanMobileField(rawMobile)
    case Err(e) => Transition(db, VerifyInvalid(e))
    case Ok(mobile) => CheckOtp(db, mobile, code, now)
  }

  /**
   * Find the user, take their latest active OTP, compare the code, then the expiry.
   * Success comes exactly for the latest active OTP's code within its expiry, and
   * deactivates that OTP and nothing else; every failure leaves the store as it was.
   */
  function CheckOtp(db: Db, mobile: string, code: int, now: int): (t: Transition<VerifyReply>)
    ensures !t.reply.VerifyInvalid?
    ensures t.reply != Verified ==> t.after == db
    ensures t.reply == Verified
            <==> && FindUser(db.users, mobile).Some?
                 && LatestActiveOtp(db.otps, FindUser(db.users, mobile).value).Some?
                 && var k := LatestActiveOtp(db.otps, FindUser(db.users, mobile).value).value;
                    db.otps[k].code == code && now <= db.otps[k].expiresAt
    ensures t.reply == Verified ==>
              var k := LatestActiveOtp(db.otps, FindUser(db.users, mobile).value).value;
              && t.after == db.(otps := t.after.otps)
              && |t.after.otps| == |db.otps| && !t.after.otps[k].active
              && t.after.otps[k] == db.otps[k].(active := false)
              && forall j :: 0 <= j < |db.otps| && j != k ==> t.after.otps[j] == db.otps[j]
  {
    match FindUser(db.users, mobile)
    case None => Transition(db, UserDoesNotExist)
    case Some(user) =>
      match LatestActiveOtp(db.otps, user)
      case None => Transition(db, NoActiveOtp)
      case Some(k) =>
        if db.otps[k].code != code then Transition(db, InvalidOtp)
        else if db.otps[k].expiresAt < now then Transition(db, OtpExpired)
        else Transition(db.(otps := db.otps[k := db.otps[k].(active := false)]), Verified)
  }

  /** The lookup failures: an unknown mobile, then a user without an active OTP. */
  lemma CheckOtpLookupFailures(db: Db, mobile: string, code: int, now: int)
    ensures CheckOtp(db, mobile, code, now).reply == UserDoesNotExist <==> FindUser(db.users, mobile).None?
    ensures CheckOtp(db, mobile, code, now).reply == NoActiveOtp
            <==> FindUser(db.users, mobile).Some?
                 && forall j :: 0 <= j < |db.otps| ==> !ActiveOtpOf(db.otps, FindUser(db.users, mobile).value, j)
  {
  }

  /**
   * The decision on the user's latest active OTP k: the code is compared before the
   * expiry, so a wrong code is "Invalid OTP." even when expired, and a right but
   * expired code is "OTP has expired." with the OTP left active; a right code in time
   * deactivates k and nothing else.
   */
  lemma CheckOtpDecision(db: Db, mobile: string, code: int, now: int, user: nat, k: nat)
    requires FindUser(db.users, mobile) == Some(user)
    requires LatestActiveOtp(db.otps, user) == Some(k)
    ensures db.otps[k].code != code ==> CheckOtp(db, mobile, code, now).reply == InvalidOtp
    ensures db.otps[k].code == code && now > db.otps[k].expiresAt ==>
              CheckOtp(db, mobile, code, now).reply == OtpExpired
              && CheckOtp(db, mobile, code, now).after.otps[k].active
    ensures CheckOtp(db, mobile, code, now).reply == Verified
            <==> db.otps[k].code == code && now <= db.otps[k].expiresAt
    ensures CheckOtp(db, mobile, code, now).reply == Verified ==>
              CheckOtp(db, mobile, code, now).after.otps == db.otps[k := db.otps[k].(active := false)]
  {
  }

  /**
   * Only the latest active OTP decides: an older active OTP of the user that carries
   * the entered code and has not expired does not make a wrong latest code pass.
   */
  lemma OlderOtpIgnored(db: Db, mobile: string, code: int, now: int, user: nat, k: nat, older: nat)
    requires FindUser(db.users, mobile) == Some(user)
    requires LatestActiveOtp(db.otps, user) == Some(k)
    requires ActiveOtpOf(db.otps, user, older) && older != k
    requires db.otps[older].code == code && now <= db.otps[older].expiresAt
    requires db.otps[k].code != code
    ensures CheckOtp(db, mobile, code, now).reply == InvalidOtp
  {
  }

  /**
   * Rewriting the OTP table anywhere but at the latest OTP, as long as that one stays
   * the latest, cannot change the answer.
   */
  lemma OnlyLatestDecides(db: Db, otps: seq<Otp>, mobile: string, code: int, now: int, user: nat, k: nat)
    requires FindUser(db.users, mobile) == Some(user)
    requires LatestActiveOtp(db.otps, user) == Some(k)
    requires |otps| == |db.otps| && otps[k] == db.otps[k]
    requires forall j :: ActiveOtpOf(otps, user, j) ==> NotOlder(otps, k, j)
    ensures CheckOtp(db.(otps := otps), mobile, code, now).reply == CheckOtp(db, mobile, code, now).reply
  {
    LatestActiveOtpUnique(otps, user, k);
  }

  /**
   * A successful verification consumes the OTP: replaying it can no longer select
   * it, and when it was the user's only active OTP the replay finds none.
   */
  lemma ReplayRejected(db: Db, mobile: string, code: int, now: int, later: int)
    requires CheckOtp(db, mobile, code, now).reply == Verified
    ensures var user := FindUser(db.users, mobile).value;
            var k := LatestActiveOtp(db.otps, user).value;
            var after := CheckOtp(db, mobile, code, now).after;
            && !after.otps[k].active
            && LatestActiveOtp(after.otps, user) != Some(k)
            && ((forall j :: ActiveOtpOf(db.otps, user, j) ==> j == k) ==>
                  CheckOtp(after, mobile, code, later).reply == NoActiveOtp)
  {
    var user := FindUser(db.users, mobile).value;
    var k := LatestActiveOtp(db.otps, user).value;
    var after := CheckOtp(db, mobile, code, now).after;
    CheckOtpDecision(db, mobile, code, now, user, k);
    if forall j :: ActiveOtpOf(db.otps, user, j) ==> j == k {
      forall j | 0 <= j < |after.otps| ensures !ActiveOtpOf(after.otps, user, j) {
        if j != k {
          assert after.otps[j] == db.otps[j];
          assert !ActiveOtpOf(db.otps, user, j);
        }
      }
    }
  }

  /** Checking a code keeps the store's constraints. */
  lemma CheckOtpPreservesValid(db: Db, mobile: string, code: int, now: int)
    requires Valid(db)
    ensures Valid(CheckOtp(db, mobile, code, now).after)
  {
    var t := CheckOtp(db, mobile, code, now);
    OtpActiveIsOneWay(db, mobile, 0, code, now, true);
    assert |t.after.otps| == |db.otps|;
    assert forall k :: 0 <= k < |t.after.otps| ==> t.after.otps[k].user == db.otps[k].user;
  }

  /** VerifyOTP keeps the store's constraints. */
  lemma VerifyOtpPreservesValid(db: Db, rawMobile: string, code: int, now: int)
    requires Valid(db)
    ensures Valid(VerifyOtp(db, rawMobile, code, now).after)
  {
    match CleanMobileField(rawMobile)
    case Err(_) =>
    case Ok(mobile) => CheckOtpPreservesValid(db, mobile, code, now);
  }

  // ---------------------------------------------------------------------------
  // OTP lifecycle
  // ---------------------------------------------------------------------------

  /**
   * How the OTP table may move between two states: rows are only appended, and an
   * existing row either stays or is deactivated; nothing becomes active again.
   */
  predicate OtpsEvolve(before: seq<Otp>, after: seq<Otp>) {
    && |before| <= |after|
    && forall k :: 0 <= k < |before| ==> after[k] == before[k] || after[k] == before[k].(active := false)
  }

  /** Issuing and checking OTPs move the OTP table only as OtpsEvolve allows. */
  lemma OtpActiveIsOneWay(db: Db, mobile: string, code: nat, input: int, now: int, smsDelivered: bool)
    ensures OtpsEvolve(db.otps, IssueOtp(db, mobile, code, now, smsDelivered).after.otps)
    ensures OtpsEvolve(db.otps, CheckOtp(db, mobile, input, now).after.otps)
  {
  }

  // ---------------------------------------------------------------------------
  // LatestActiveEventView
  // ---------------------------------------------------------------------------

  /** The event shown and the ids of its tickets. */
  datatype EventListing = EventListing(event: nat, tickets: seq<nat>)

  datatype EventError =
    | NoActiveEvent       // 404 "No active event available"
    | NoTicketsAvailable  // 404 "No tickets available for this event"

  /**
   * LatestActiveEventView.get: the earliest active event dated today or later, with
   * its tickets. A listing shows an upcoming event no later than any other, exactly
   * its tickets, at least one of them with availability left. "No active event"
   * comes exactly when nothing is upcoming, and "no tickets" exactly when the
   * selected event has no ticket with availability (no ticket at all included).
   */
  function LatestActiveEvent(db: Db, today: int): (r: Result<EventListing, EventError>)
    ensures r.Ok? ==>
              && Upcoming(db.events, today, r.value.event)
              && (forall j :: Upcoming(db.events, today, j) ==> db.events[r.value.event].date <= db.events[j].date)
              && (forall k :: k in r.value.tickets <==> 0 <= k < |db.tickets| && db.tickets[k].event == r.value.event)
              && (exists k :: k in r.value.tickets && db.tickets[k].available > 0)
    ensures r == Err(NoActiveEvent) <==> forall j :: 0 <= j < |db.events| ==> !Upcoming(db.events, today, j)
    ensures r == Err(NoTicketsAvailable)
            <==> EarliestUpcoming(db.events, today).Some?
                 && forall k :: 0 <= k < |db.tickets| && db.tickets[k].event == EarliestUpcoming(db.events, today).value
                                ==> db.tickets[k].available == 0
  {
    match EarliestUpcoming(db.events, today)
    case None => Err(NoActiveEvent)
    case Some(e) =>
      var tickets := TicketsOf(db.tickets, e);
      if |tickets| == 0 then Err(NoTicketsAvailable)
      else if AvailableFor(db.tickets, e) == 0 then Err(NoTicketsAvailable)
      else Ok(EventListing(e, tickets))
  }

  // ---------------------------------------------------------------------------
  // CreateProfileAndBookingView
  // ---------------------------------------------------------------------------

  datatype BookReply =
    | Booked(profile: nat, booking: nat)          // 201 with both records
    | ProfileRejected(error: ValidationError)     // raised by is_valid, answered 500
    | NoSuchUser                                  // 400 "User with this mobile number does not exist."
    | BookingRejected(error: ValidationError)     // raised by is_valid, answered 500
    | IntegrityViolation                          // a one-to-one save failed, answered 500

  /**
   * CreateProfileAndBookingView.post: a refused profile is answered with its error and
   * saves nothing; a booking saves one profile and one booking, both for the user
   * holding the profile's canonical mobile.
   */
  function Book(db: Db, p: ProfileInput, b: BookingInput): (t: Transition<BookReply>)
    ensures t.reply.ProfileRejected? <==> ValidateProfile(p).Err?
    ensures t.reply.ProfileRejected? ==> t == Transition(db, ProfileRejected(ValidateProfile(p).error))
    ensures t.reply.Booked? ==>
              && ValidateProfile(p).Ok?
              && |t.after.profiles| == |db.profiles| + 1 && |t.after.bookings| == |db.bookings| + 1
              && var pr := t.after.profiles[|db.profiles|];
                 && pr.mobile == ValidateProfile(p).value.mobile
                 && pr.user < |db.users| && db.users[pr.user].mobile == pr.mobile
                 && t.after.bookings[|db.bookings|].user == pr.user
  {
    match ValidateProfile(p)
    case Err(e) => Transition(db, ProfileRejected(e))
    case Ok(pf) => BookFor(db, pf, b)
  }

  /**
   * The rest of the handler, inside transaction.atomic. The handler catches every
   * exception itself, so the transaction commits whatever was saved, except after a
   * failed database write, which marks it for rollback. Hence:
   * - an unknown mobile saves nothing;
   * - a second profile for the user fails its one-to-one save: nothing saved;
   * - a refused booking leaves the just-saved profile committed;
   * - a second booking for the user fails its one-to-one save: the profile is rolled back too.
   * The repeated user lookup before saving the booking finds the same user, since
   * saving the profile does not touch users. Users, OTPs, events and tickets never
   * change: in particular no ticket's availability goes down. A booking is saved
   * exactly when the user exists, has neither profile nor booking yet, and the
   * booking validates; then both new rows are that user's.
   */
  function BookFor(db: Db, pf: ProfileFields, b: BookingInput): (t: Transition<BookReply>)
    ensures !t.reply.ProfileRejected?
    ensures t.reply == NoSuchUser <==> FindUser(db.users, pf.mobile).None?
    ensures t.reply.Booked?
            <==> && FindUser(db.users, pf.mobile).Some?
                 && !HasProfile(db.profiles, FindUser(db.users, pf.mobile).value)
                 && !HasBooking(db.bookings, FindUser(db.users, pf.mobile).value)
                 && BookingFieldsWellFormed(b, |db.events|, db.tickets)
                 && b.quantity <= db.tickets[b.ticket].available
    ensures t.after == db.(profiles := t.after.profiles, bookings := t.after.bookings)
    ensures t.reply.BookingRejected? ==>
              && FindUser(db.users, pf.mobile).Some?
              && t.after == db.(profiles := db.profiles + [Profile(FindUser(db.users, pf.mobile).value,
                                                                   pf.name, pf.age, pf.mobile, pf.email, pf.gender)])
    ensures !t.reply.Booked? && !t.reply.BookingRejected? ==> t.after == db
    ensures t.reply.Booked? ==>
              var user := FindUser(db.users, pf.mobile).value;
              && t.reply == Booked(|db.profiles|, |db.bookings|)
              && t.after.profiles == db.profiles + [Profile(user, pf.name, pf.age, pf.mobile, pf.email, pf.gender)]
              && |t.after.bookings| == |db.bookings| + 1
              && t.after.bookings[..|db.bookings|] == db.bookings
              && var nb := t.after.bookings[|db.bookings|];
                 && nb.user == user && nb.event == b.event && nb.ticket == b.ticket
                 && nb.quantity == b.quantity <= db.tickets[b.ticket].available
  {
    match FindUser(db.users, pf.mobile)
    case None => Transition(db, NoSuchUser)
    case Some(user) =>
      if HasProfile(db.profiles, user) then Transition(db, IntegrityViolation)
      else
        var withProfile := db.(profiles := db.profiles + [Profile(user, pf.name, pf.age, pf.mobile, pf.email, pf.gender)]);
        match ValidateBooking(b, |db.events|, db.tickets)
        case Err(e) => Transition(withProfile, BookingRejected(e))
        case Ok(bf) =>
          if HasBooking(db.bookings, user) then Transition(db, IntegrityViolation)
          else
            var booking := Booking(bf.event, user, bf.ticket, bf.quantity, bf.attendingTime,
                                   bf.cabRequired, bf.location, bf.address);
            assert (db.bookings + [booking])[..|db.bookings|] == db.bookings;
            Transition(withProfile.(bookings := db.bookings + [booking]), Booked(|db.profiles|, |db.bookings|))
  }

  /**
   * The ticket is not checked against the event: a ticket of one event can be
   * booked for another.
   */
  lemma TicketNeedNotMatchEvent(db: Db, pf: ProfileFields, b: BookingInput)
    requires FindUser(db.users, pf.mobile).Some?
    requires !HasProfile(db.profiles, FindUser(db.users, pf.mobile).value)
    requires !HasBooking(db.bookings, FindUser(db.users, pf.mobile).value)
    requires BookingFieldsWellFormed(b, |db.events|, db.tickets) && b.quantity <= db.tickets[b.ticket].available
    requires db.tickets[b.ticket].event != b.event
    ensures BookFor(db, pf, b).reply.Booked?
    ensures var nb := BookFor(db, pf, b).after.bookings[|db.bookings|];
            db.tickets[nb.ticket].event != nb.event
  {
  }

  /** Booking keeps the store's constraints: at most one profile and one booking per user. */
  lemma BookForPreservesValid(db: Db, pf: ProfileFields, b: BookingInput)
    requires Valid(db)
    ensures Valid(BookFor(db, pf, b).after)
  {
    match FindUser(db.users, pf.mobile)
    case None =>
    case Some(user) =>
      if !HasProfile(db.profiles, user) {
        var profile := Profile(user, pf.name, pf.age, pf.mobile, pf.email, pf.gender);
        AddProfilePreservesValid(db, profile);
        match ValidateBooking(b, |db.events|, db.tickets)
        case Err(_) =>
        case Ok(bf) =>
          if !HasBooking(db.bookings, user) {
            var row := Booking(bf.event, user, bf.ticket, bf.quantity, bf.attendingTime,
                               bf.cabRequired, bf.location, bf.address);
            AddBookingPreservesValid(db.(profiles := db.profiles + [profile]), row);
          }
      }
  }

  lemma BookPreservesValid(db: Db, p: ProfileInput, b: BookingInput)
    requires Valid(db)
    ensures Valid(Book(db, p, b).after)
  {
    match ValidateProfile(p)
    case Err(_) =>
    case Ok(pf) => BookForPreservesValid(db, pf, b);
  }

  /** The earlier users and profiles are a prefix of the later ones. */
  predicate UsersAndProfilesKept(before: Db, after: Db) {
    before.users <= after.users && before.profiles <= after.profiles
  }

  /**
   * No request removes or rewrites a user or a profile: every handler, and the
   * user manager, keeps the earlier users and profiles as a prefix of the new ones.
   */
  lemma UsersAndProfilesOnlyGrow(db: Db, rawMobile: string, code: nat, input: int, now: int, smsDelivered: bool,
                                 p: ProfileInput, b: BookingInput, extra: UserManager.ExtraFields)
    requires IsOtpCode(code)
    ensures UsersAndProfilesKept(db, SendOtp(db, rawMobile, code, now, smsDelivered).after)
    ensures UsersAndProfilesKept(db, VerifyOtp(db, rawMobile, input, now).after)
    ensures UsersAndProfilesKept(db, Book(db, p, b).after)
    ensures UsersAndProfilesKept(db, BookAtomic(db, p, b).after)
    ensures UsersAndProfilesKept(db, UserManager.CreateUser(db, rawMobile, false, false).after)
    ensures UsersAndProfilesKept(db, UserManager.CreateSuperuser(db, rawMobile, extra).after)
  {
    SendOtpKeeps(db, rawMobile, code, now, smsDelivered);
    VerifyOtpKeeps(db, rawMobile, input, now);
    BookKeeps(db, p, b);
    CreateUserKeeps(db, rawMobile, false, false);
    CreateSuperuserKeeps(db, rawMobile, extra);
  }

  lemma SendOtpKeeps(db: Db, rawMobile: string, code: nat, now: int, smsDelivered: bool)
    requires IsOtpCode(code)
    ensures UsersAndProfilesKept(db, SendOtp(db, rawMobile, code, now, smsDelivered).after)
  {
    var m := CleanMobileField(rawMobile);
    if m.Ok? {
      var after := IssueOtp(db, m.value, code, now, smsDelivered).after;
      assert SendOtp(db, rawMobile, code, now, smsDelivered).after == after;
      assert after.profiles == db.profiles;
      assert db.users <= db.users + [NewUser(m.value)];
    }
  }

  lemma VerifyOtpKeeps(db: Db, rawMobile: string, input: int, now: int)
    ensures UsersAndProfilesKept(db, VerifyOtp(db, rawMobile, input, now).after)
  {
    var after := VerifyOtp(db, rawMobile, input, now).after;
    assert after.users == db.users && after.profiles == db.profiles;
  }

  lemma BookKeeps(db: Db, p: ProfileInput, b: BookingInput)
    ensures UsersAndProfilesKept(db, Book(db, p, b).after)
    ensures UsersAndProfilesKept(db, BookAtomic(db, p, b).after)
  {
    var pf := ValidateProfile(p);
    if pf.Ok? {
      var after := BookFor(db, pf.value, b).after;
      assert Book(db, p, b).after == after;
      assert after.users == db.users;
      if after.profiles != db.profiles {
        assert db.profiles <= after.profiles;
      }
    }
  }

  lemma CreateUserKeeps(db: Db, mobile: string, isStaff: bool, isSuperuser: bool)
    ensures UsersAndProfilesKept(db, UserManager.CreateUser(db, mobile, isStaff, isSuperuser).after)
  {
    var t := UserManager.CreateUser(db, mobile, isStaff, isSuperuser);
    if t.reply.Ok? {
      assert db.users <= db.users + [User(Strip(mobile), true, isStaff, isSuperuser)];
    }
  }

  lemma CreateSuperuserKeeps(db: Db, mobile: string, extra: UserManager.ExtraFields)
    ensures UsersAndProfilesKept(db, UserManager.CreateSuperuser(db, mobile, extra).after)
  {
    var t := UserManager.CreateSuperuser(db, mobile, extra);
    if t.reply.Ok? {
      assert t.after.users[..|db.users|] == db.users;
    }
  }

  // ---------------------------------------------------------------------------
  // The half-committed booking
  // ---------------------------------------------------------------------------

  /**
   * As written, a refused booking commits the profile saved just before it. The user
   * then has a profile, and in every later state (users and profiles are only ever
   * appended to, see UsersAndProfilesOnlyGrow) every request whose profile carries
   * that mobile fails its one-to-one profile save, whatever booking it carries and
   * whatever its other profile fields: the user can never book.
   */
  lemma OrphanProfileLocksOut(db: Db, pf: ProfileFields, b: BookingInput, later: Db, p: ProfileInput, retry: BookingInput)
    requires BookFor(db, pf, b).reply.BookingRejected?
    requires Valid(later)
    requires UsersAndProfilesKept(BookFor(db, pf, b).after, later)
    requires ValidateProfile(p).Ok? && ValidateProfile(p).value.mobile == pf.mobile
    ensures var after := BookFor(db, pf, b).after;
            && |after.profiles| == |db.profiles| + 1
            && after.bookings == db.bookings
    ensures Book(later, p, retry) == Transition(later, IntegrityViolation)
  {
    var after := BookFor(db, pf, b).after;
    var user := FindUser(db.users, pf.mobile).value;
    assert later.users[user] == after.users[user];
    FindUserUnique(later.users, pf.mobile, user);
    assert later.profiles[|db.profiles|] == after.profiles[|db.profiles|];
    assert HasProfile(later.profiles, user);
  }

  /** A request that shows it: a valid profile with a booking that leaves out its location. */
  lemma OrphanProfileExample(db: Db, pf: ProfileFields, b: BookingInput)
    requires FindUser(db.users, pf.mobile).Some?
    requires !HasProfile(db.profiles, FindUser(db.users, pf.mobile).value)
    requires b.location == ""
    ensures BookFor(db, pf, b).reply.BookingRejected?
    ensures BookFor(db, pf, b).after != db
  {
    MissingLocationRefused(b, |db.events|, db.tickets);
    assert |BookFor(db, pf, b).after.profiles| == |db.profiles| + 1;
  }

  /**
   * The handler as its atomic block intends it: the same answers as written, but the
   * profile and the booking are saved together or not at all.
   */
  function BookAtomic(db: Db, p: ProfileInput, b: BookingInput): (t: Transition<BookReply>)
    ensures t.reply == Book(db, p, b).reply
    ensures !t.reply.Booked? ==> t.after == db
    ensures t.reply.Booked? ==>
              && |t.after.profiles| == |db.profiles| + 1 && |t.after.bookings| == |db.bookings| + 1
              && var pr := t.after.profiles[|db.profiles|];
                 && pr.mobile == ValidateProfile(p).value.mobile
                 && pr.user < |db.users| && db.users[pr.user].mobile == pr.mobile
                 && t.after.bookings[|db.bookings|].user == pr.user
  {
    var t := Book(db, p, b);
    if t.reply.Booked? then t else Transition(db, t.reply)
  }

  /**
   * With the atomic handler a refused booking can be corrected: retrying the same
   * profile with a booking that validates succeeds.
   */
  lemma BookAtomicRetry(db: Db, p: ProfileInput, b: BookingInput, retry: BookingInput)
    requires ValidateProfile(p).Ok?
    requires BookAtomic(db, p, b).reply.BookingRejected?
    requires !HasBooking(db.bookings, FindUser(db.users, ValidateProfile(p).value.mobile).value)
    requires ValidateBooking(retry, |db.events|, db.tickets).Ok?
    ensures BookAtomic(BookAtomic(db, p, b).after, p, retry).reply.Booked?
  {
    var pf := ValidateProfile(p).value;
    assert BookFor(db, pf, b).reply.BookingRejected?;
  }

  /** The atomic handler keeps the store's constraints. */
  lemma BookAtomicPreservesValid(db: Db, p: ProfileInput, b: BookingInput)
    requires Valid(db)
    ensures Valid(BookAtomic(db, p, b).after)
  {
    BookPreservesValid(db, p, b);
  }
}
