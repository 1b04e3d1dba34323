/**
 * The persistent store as a value: one sequence per table, ids being positions.
 * Valid states the unique and foreign-key constraints the schema of
 * event_registration/models.py enforces; the functions here are the ORM queries
 * the views issue (get by mobile, latest active OTP, earliest upcoming event,
 * tickets of an event and their total availability).
 */
module Database {
  import opened Wrappers
  import opened Models

  datatype Db = Db(users: seq<User>, otps: seq<Otp>, events: seq<Event>, tickets: seq<Ticket>,
                   profiles: seq<Profile>, bookings: seq<Booking>)

  /** A store after an operation, with what the operation answered. */
  datatype Transition<+R> = Transition(after: Db, reply: R)

  // ---------------------------------------------------------------------------
  // Constraints
  // ---------------------------------------------------------------------------

  /** User.mobile is unique. */
  predicate UniqueMobiles(users: seq<User>) {
    forall i, j :: 0 <= i < j < |users| ==> users[i].mobile != users[j].mobile
  }

  /** Profile.user is one-to-one. */
  predicate OneProfilePerUser(profiles: seq<Profile>) {
    forall i, j :: 0 <= i < j < |profiles| ==> profiles[i].user != profiles[j].user
  }

  /** EventBooking.user is one-to-one. */
  predicate OneBookingPerUser(bookings: seq<Booking>) {
    forall i, j :: 0 <= i < j < |bookings| ==> bookings[i].user != bookings[j].user
  }

  predicate BookingRefsExist(db: Db, b: Booking) {
    b.user < |db.users| && b.event < |db.events| && b.ticket < |db.tickets|
  }

  /** The schema's unique constraints, and every foreign key names an existing row. */
  predicate Valid(db: Db) {
    && UniqueMobiles(db.users)
    && (forall k :: 0 <= k < |db.otps| ==> db.otps[k].user < |db.users|)
    && (forall k :: 0 <= k < |db.tickets| ==> db.tickets[k].event < |db.events|)
    && (forall k :: 0 <= k < |db.profiles| ==> db.profiles[k].user < |db.users|)
    && OneProfilePerUser(db.profiles)
    && (forall k :: 0 <= k < |db.bookings| ==> BookingRefsExist(db, db.bookings[k]))
    && OneBookingPerUser(db.bookings)
  }

  // ---------------------------------------------------------------------------
  // Users
  // ---------------------------------------------------------------------------

  /** User.objects.get(mobile=...): the user holding that mobile, if any. */
  function FindUser(users: seq<User>, mobile: string): (r: Option<nat>)
    ensures r.Some? ==> r.value < |users| && users[r.value].mobile == mobile
    ensures r.None? <==> forall i :: 0 <= i < |users| ==> users[i].mobile != mobile
  {
    if |users| == 0 then None
    else if users[|users| - 1].mobile == mobile then Some(|users| - 1)
    else FindUser(users[..|users| - 1], mobile)
  }

  /** Under the unique constraint, the user found is the only one with that mobile. */
  lemma FindUserUnique(users: seq<User>, mobile: string, i: nat)
    requires UniqueMobiles(users)
    requires i < |users| && users[i].mobile == mobile
    ensures FindUser(users, mobile) == Some(i)
  {
  }

  /** Adding a user whose mobile is not taken keeps the store valid. */
  lemma AddUserPreservesValid(db: Db, u: User)
    requires Valid(db)
    requires FindUser(db.users, u.mobile).None?
    ensures Valid(db.(users := db.users + [u]))
  {
    var users := db.users + [u];
    assert forall i :: 0 <= i < |db.users| ==> users[i] == db.users[i];
    assert UniqueMobiles(users);
  }

  /** Whether some profile / booking belongs to the user. */
  predicate HasProfile(profiles: seq<Profile>, user: nat) {
    exists k :: 0 <= k < |profiles| && profiles[k].user == user
  }

  predicate HasBooking(bookings: seq<Booking>, user: nat) {
    exists k :: 0 <= k < |bookings| && bookings[k].user == user
  }

  /** Saving the first profile of an existing user keeps the store valid. */
  lemma AddProfilePreservesValid(db: Db, p: Profile)
    requires Valid(db)
    requires p.user < |db.users| && !HasProfile(db.profiles, p.user)
    ensures Valid(db.(profiles := db.profiles + [p]))
  {
    var profiles := db.profiles + [p];
    assert forall k :: 0 <= k < |db.profiles| ==> profiles[k] == db.profiles[k];
    assert OneProfilePerUser(profiles);
  }

  /** Saving the first booking of an existing user, for an existing event and ticket, keeps the store valid. */
  lemma AddBookingPreservesValid(db: Db, b: Booking)
    requires Valid(db)
    requires BookingRefsExist(db, b) && !HasBooking(db.bookings, b.user)
    ensures Valid(db.(bookings := db.bookings + [b]))
  {
    var bookings := db.bookings + [b];
    assert forall k :: 0 <= k < |db.bookings| ==> bookings[k] == db.bookings[k];
    assert OneBookingPerUser(bookings);
  }

  // ---------------------------------------------------------------------------
  // OTPs
  // ---------------------------------------------------------------------------

  /** OTP row k belongs to the user and is active. */
  predicate ActiveOtpOf(otps: seq<Otp>, user: nat, k: int) {
    0 <= k < |otps| && otps[k].user == user && otps[k].active
  }

  /**
   * Row k is at least as recent as row j: created later, or at the same instant with
   * the larger id (the tie-break this model fixes where the database leaves it open).
   */
  predicate NotOlder(otps: seq<Otp>, k: nat, j: nat)
    requires k < |otps| && j < |otps|
  {
    otps[k].createdAt > otps[j].createdAt || (otps[k].createdAt == otps[j].createdAt && k >= j)
  }

  /** OTP.objects.filter(user=user, active=True).latest('created_at'). */
  function LatestActiveOtp(otps: seq<Otp>, user: nat): (r: Option<nat>)
    ensures r.Some? ==> ActiveOtpOf(otps, user, r.value)
    ensures r.Some? ==> forall j :: ActiveOtpOf(otps, user, j) ==> NotOlder(otps, r.value, j)
    ensures r.None? <==> forall j :: 0 <= j < |otps| ==> !ActiveOtpOf(otps, user, j)
  {
    if |otps| == 0 then None
    else
      var last := |otps| - 1;
      var rest := LatestActiveOtp(otps[..last], user);
      if !ActiveOtpOf(otps, user, last) then
        assert forall j :: ActiveOtpOf(otps[..last], user, j) <==> ActiveOtpOf(otps, user, j) && j != last;
        rest
      else if rest.Some? && otps[rest.value].createdAt > otps[last].createdAt then
        assert forall j :: ActiveOtpOf(otps, user, j) && j != last ==> ActiveOtpOf(otps[..last], user, j);
        rest
      else
        assert forall j :: ActiveOtpOf(otps, user, j) && j != last ==> ActiveOtpOf(otps[..last], user, j);
        Some(last)
  }

  /** The latest active OTP is the one active OTP of the user that is not older than any other. */
  lemma LatestActiveOtpUnique(otps: seq<Otp>, user: nat, k: nat)
    requires ActiveOtpOf(otps, user, k)
    requires forall j :: ActiveOtpOf(otps, user, j) ==> NotOlder(otps, k, j)
    ensures LatestActiveOtp(otps, user) == Some(k)
  {
    var r := LatestActiveOtp(otps, user).value;
    assert NotOlder(otps, r, k) && NotOlder(otps, k, r);
  }

  // ---------------------------------------------------------------------------
  // Events and tickets
  // ---------------------------------------------------------------------------

  /** Event i is active and dated today or later. */
  predicate Upcoming(events: seq<Event>, today: int, i: int) {
    0 <= i < |events| && events[i].active && events[i].date >= today
  }

  /**
   * Event.objects.filter(active=True, event_date__gte=today).order_by('event_date').first():
   * the upcoming event with the smallest date (among equal dates, the smallest id).
   */
  function EarliestUpcoming(events: seq<Event>, today: int): (r: Option<nat>)
    ensures r.Some? ==> Upcoming(events, today, r.value)
    ensures r.Some? ==> forall j :: Upcoming(events, today, j) ==>
                          events[r.value].date < events[j].date || (events[r.value].date == events[j].date && r.value <= j)
    ensures r.None? <==> forall j :: 0 <= j < |events| ==> !Upcoming(events, today, j)
  {
    if |events| == 0 then None
    else
      var last := |events| - 1;
      var rest := EarliestUpcoming(events[..last], today);
      assert forall j :: Upcoming(events[..last], today, j) <==> Upcoming(events, today, j) && j != last;
      if !Upcoming(events, today, last) then rest
      else if rest.Some? && events[rest.value].date <= events[last].date then rest
      else Some(last)
  }

  /** Ticket.objects.filter(event=event): the ids of the event's tickets, in id order. */
  function TicketsOf(tickets: seq<Ticket>, event: nat): (r: seq<nat>)
    ensures forall k :: k in r <==> 0 <= k < |tickets| && tickets[k].event == event
    ensures forall i, j :: 0 <= i < j < |r| ==> r[i] < r[j]
  {
    if |tickets| == 0 then []
    else
      var last := |tickets| - 1;
      var rest := TicketsOf(tickets[..last], event);
      assert forall i :: 0 <= i < |rest| ==> rest[i] < last by {
        forall i | 0 <= i < |rest| ensures rest[i] < last {
          assert rest[i] in rest;
        }
      }
      if tickets[last].event == event then rest + [last] else rest
  }

  /** sum(ticket.total_tickets_available for ticket in tickets of the event). */
  function AvailableFor(tickets: seq<Ticket>, event: nat): (total: nat)
    ensures total == 0 <==> forall k :: 0 <= k < |tickets| && tickets[k].event == event ==> tickets[k].available == 0
    ensures forall k :: 0 <= k < |tickets| && tickets[k].event == event ==> tickets[k].available <= total
  {
    if |tickets| == 0 then 0
    else
      var last := |tickets| - 1;
      (if tickets[last].event == event then tickets[last].available else 0) + AvailableFor(tickets[..last], event)
  }
}
