/**
 * The persistent store as the handlers use it: one mutable table per model, each
 * held as a sequence whose positions are the row ids. Every method updates the
 * tables in place and is proved to leave exactly the state, and give exactly the
 * answer, that the corresponding transition of UserManager or Views describes, and
 * keeps the store's constraints (Database.Valid); the event query changes nothing.
 */
module Storage {
  import opened Wrappers
  import opened Models
  import opened Serializers
  import opened Database
  import UserManager
  import Views

  class Store {
    var users: seq<User>
    var otps: seq<Otp>
    var events: seq<Event>
    var tickets: seq<Ticket>
    var profiles: seq<Profile>
    var bookings: seq<Booking>

    /** The tables as one value. */
    ghost function Snapshot(): Db
      reads this
    {
      Db(users, otps, events, tickets, profiles, bookings)
    }

    ghost predicate Valid()
      reads this
    {
      Database.Valid(Snapshot())
    }

    /** A store holding the events and tickets an administrator set up, and nothing else. */
    constructor (events: seq<Event>, tickets: seq<Ticket>)
      requires forall k :: 0 <= k < |tickets| ==> tickets[k].event < |events|
      ensures Valid()
      ensures Snapshot() == Db([], [], events, tickets, [], [])
    {
      this.users := [];
      this.otps := [];
      this.events := events;
      this.tickets := tickets;
      this.profiles := [];
      this.bookings := [];
    }

    /** CustomUserManager.create_user. */
    method CreateUser(mobile: string, isStaff: bool, isSuperuser: bool) returns (r: Result<nat, UserManager.ManagerError>)
      requires Valid()
      modifies this
      ensures Valid()
      ensures Snapshot() == UserManager.CreateUser(old(Snapshot()), mobile, isStaff, isSuperuser).after
      ensures r == UserManager.CreateUser(old(Snapshot()), mobile, isStaff, isSuperuser).reply
    {
      UserManager.CreateUserPreservesValid(Snapshot(), mobile, isStaff, isSuperuser);
      if mobile == "" {
        return Err(UserManager.MobileRequired);
      }
      var normalized := Strip(mobile);
      if FindUser(users, normalized).Some? {
        return Err(UserManager.DuplicateMobile);
      }
      r := Ok(|users|);
      users := users + [User(normalized, true, isStaff, isSuperuser)];
    }

    /** CustomUserManager.create_superuser: fill in the flag defaults, check them, then create the user. */
    method CreateSuperuser(mobile: string, extra: UserManager.ExtraFields) returns (r: Result<nat, UserManager.ManagerError>)
      requires Valid()
      modifies this
      ensures Valid()
      ensures Snapshot() == UserManager.CreateSuperuser(old(Snapshot()), mobile, extra).after
      ensures r == UserManager.CreateSuperuser(old(Snapshot()), mobile, extra).reply
    {
      var fields := extra;
      if fields.isStaff.None? {
        fields := fields.(isStaff := Some(PyBool(true)));
      }
      if fields.isSuperuser.None? {
        fields := fields.(isSuperuser := Some(PyBool(true)));
      }
      if fields.isStaff.value != PyBool(true) {
        return Err(UserManager.StaffMustBeTrue);
      }
      if fields.isSuperuser.value != PyBool(true) {
        return Err(UserManager.SuperuserMustBeTrue);
      }
      r := CreateUser(mobile, true, true);
    }

    /** SendOTP.post: answers as Views.SendOtp and leaves the tables it describes. */
    method SendOtp(rawMobile: string, code: nat, now: int, smsDelivered: bool) returns (reply: Views.SendReply)
      requires Valid() && Views.IsOtpCode(code)
      modifies this
      ensures Valid()
      ensures Snapshot() == Views.SendOtp(old(Snapshot()), rawMobile, code, now, smsDelivered).after
      ensures reply == Views.SendOtp(old(Snapshot()), rawMobile, code, now, smsDelivered).reply
    {
      Views.SendOtpPreservesValid(Snapshot(), rawMobile, code, now, smsDelivered);
      var mobile := CleanMobileField(rawMobile);
      if mobile.Err? {
        return Views.SendInvalid(mobile.error);
      }
      reply := IssueOtp(mobile.value, code, now, smsDelivered);
    }

    /** Get or create the user, then append the OTP row; the SMS outcome only changes the answer. */
    method IssueOtp(mobile: string, code: nat, now: int, smsDelivered: bool) returns (reply: Views.SendReply)
      requires Valid()
      modifies this
      ensures Valid()
      ensures Snapshot() == Views.IssueOtp(old(Snapshot()), mobile, code, now, smsDelivered).after
      ensures reply == Views.IssueOtp(old(Snapshot()), mobile, code, now, smsDelivered).reply
    {
      Views.IssueOtpPreservesValid(Snapshot(), mobile, code, now, smsDelivered);
      var user: nat;
      var created: bool;
      match FindUser(users, mobile) {
        case Some(u) =>
          user, created := u, false;
        case None =>
          user, created := |users|, true;
          users := users + [NewUser(mobile)];
      }
      otps := otps + [Otp(user, code, now, now + Views.OtpLifetime, true)];
      reply := if smsDelivered then Views.OtpSent(mobile, created) else Views.SmsFailed;
    }

    /** VerifyOTP.post: answers as Views.VerifyOtp and leaves the tables it describes. */
    method VerifyOtp(rawMobile: string, code: int, now: int) returns (reply: Views.VerifyReply)
      requires Valid()
      modifies this
      ensures Valid()
      ensures Snapshot() == Views.VerifyOtp(old(Snapshot()), rawMobile, code, now).after
      ensures reply == Views.VerifyOtp(old(Snapshot()), rawMobile, code, now).reply
    {
      Views.VerifyOtpPreservesValid(Snapshot(), rawMobile, code, now);
      var mobile := CleanMobileField(rawMobile);
      if mobile.Err? {
        return Views.VerifyInvalid(mobile.error);
      }
      reply := CheckOtp(mobile.value, code, now);
    }

    /** Select the user's latest active OTP and deactivate it when the code matches in time. */
    method CheckOtp(mobile: string, code: int, now: int) returns (reply: Views.VerifyReply)
      requires Valid()
      modifies this
      ensures Valid()
      ensures Snapshot() == Views.CheckOtp(old(Snapshot()), mobile, code, now).after
      ensures reply == Views.CheckOtp(old(Snapshot()), mobile, code, now).reply
    {
      Views.CheckOtpPreservesValid(Snapshot(), mobile, code, now);
      var user := FindUser(users, mobile);
      if user.None? {
        return Views.UserDoesNotExist;
      }
      var latest := LatestActiveOtp(otps, user.value);
      if latest.None? {
        return Views.NoActiveOtp;
      }
      var k := latest.value;
      if otps[k].code != code {
        return Views.InvalidOtp;
      }
      if otps[k].expiresAt < now {
        return Views.OtpExpired;
      }
      otps := otps[k := otps[k].(active := false)];
      reply := Views.Verified;
    }

    /**
     * CreateProfileAndBookingView.post with its atomic block honoured: the profile and
     * the booking are saved together or not at all (Views.BookAtomic).
     */
    method Book(p: ProfileInput, b: BookingInput) returns (reply: Views.BookReply)
      requires Valid()
      modifies this
      ensures Valid()
      ensures Snapshot() == Views.BookAtomic(old(Snapshot()), p, b).after
      ensures reply == Views.BookAtomic(old(Snapshot()), p, b).reply
    {
      Views.BookAtomicPreservesValid(Snapshot(), p, b);
      var profile := ValidateProfile(p);
      if profile.Err? {
        return Views.ProfileRejected(profile.error);
      }
      reply := BookFor(profile.value, b);
    }

    /** Save the profile, then the booking; any refusal rolls both back. */
    method BookFor(pf: ProfileFields, b: BookingInput) returns (reply: Views.BookReply)
      requires Valid()
      modifies this
      ensures Valid()
      ensures reply == Views.BookFor(old(Snapshot()), pf, b).reply
      ensures Snapshot() == (if reply.Booked? then Views.BookFor(old(Snapshot()), pf, b).after else old(Snapshot()))
    {
      ghost var t := Views.BookFor(Snapshot(), pf, b);
      Views.BookForPreservesValid(Snapshot(), pf, b);
      var user := FindUser(users, pf.mobile);
      if user.None? {
        return Views.NoSuchUser;
      }
      if HasProfile(profiles, user.value) {
        return Views.IntegrityViolation;
      }
      var booking := ValidateBooking(b, |events|, tickets);
      if booking.Err? {
        return Views.BookingRejected(booking.error);
      }
      if HasBooking(bookings, user.value) {
        return Views.IntegrityViolation;
      }
      var bf := booking.value;
      reply := Views.Booked(|profiles|, |bookings|);
      profiles := profiles + [Profile(user.value, pf.name, pf.age, pf.mobile, pf.email, pf.gender)];
      bookings := bookings + [Booking(bf.event, user.value, bf.ticket, bf.quantity, bf.attendingTime,
                                      bf.cabRequired, bf.location, bf.address)];
      assert Snapshot() == t.after;
    }

    /** LatestActiveEventView.get: a read-only query over the current tables. */
    method LatestActiveEvent(today: int) returns (r: Result<Views.EventListing, Views.EventError>)
      ensures r == Views.LatestActiveEvent(Snapshot(), today)
    {
      r := Views.LatestActiveEvent(Db(users, otps, events, tickets, profiles, bookings), today);
    }
  }
}
