/**
 * CustomUserManager (event_registration/models.py): create_user guards against a
 * missing mobile and stores it whitespace-stripped; create_superuser defaults the
 * staff and superuser flags to True and refuses any other value for them.
 */
module UserManager {
  import opened Wrappers
  import opened Models
  import opened Database

  /** The ValueErrors the manager raises, and the database's unique-constraint failure. */
  datatype ManagerError = MobileRequired | StaffMustBeTrue | SuperuserMustBeTrue | DuplicateMobile

  /** The keyword arguments create_superuser looks at; None when the caller did not pass one. */
  datatype ExtraFields = ExtraFields(isStaff: Option<PyValue>, isSuperuser: Option<PyValue>)

  /**
   * create_user: an empty mobile is refused before anything else; otherwise the
   * stripped mobile is saved, which fails on the unique constraint when taken.
   */
  function CreateUser(db: Db, mobile: string, isStaff: bool, isSuperuser: bool): (t: Transition<Result<nat, ManagerError>>)
    ensures t.reply == Err(MobileRequired) <==> mobile == ""
    ensures t.reply == Err(DuplicateMobile) <==> mobile != "" && FindUser(db.users, Strip(mobile)).Some?
    ensures t.reply.Err? ==> t.after == db
    ensures t.reply.Ok? ==> t.reply.value == |db.users|
                            && t.after == db.(users := db.users + [User(Strip(mobile), true, isStaff, isSuperuser)])
  {
    if mobile == "" then Transition(db, Err(MobileRequired))
    else
      var m := Strip(mobile);
      if FindUser(db.users, m).Some? then Transition(db, Err(DuplicateMobile))
      else Transition(db.(users := db.users + [User(m, true, isStaff, isSuperuser)]), Ok(|db.users|))
  }

  /** Creating a user keeps mobiles unique and every other table as it was. */
  lemma CreateUserPreservesValid(db: Db, mobile: string, isStaff: bool, isSuperuser: bool)
    requires Valid(db)
    ensures Valid(CreateUser(db, mobile, isStaff, isSuperuser).after)
  {
    if mobile != "" && FindUser(db.users, Strip(mobile)).None? {
      AddUserPreservesValid(db, User(Strip(mobile), true, isStaff, isSuperuser));
    }
  }

  /**
   * The guard looks at the mobile before stripping it: a whitespace-only mobile passes
   * and is stored as the empty string.
   */
  lemma BlankMobileStoredEmpty(db: Db, mobile: string)
    requires mobile != "" && AllSpace(mobile)
    requires forall i :: 0 <= i < |db.users| ==> db.users[i].mobile != ""
    ensures CreateUser(db, mobile, false, false).reply == Ok(|db.users|)
    ensures CreateUser(db, mobile, false, false).after.users[|db.users|].mobile == ""
  {
  }

  /** dict.setdefault: the value already present, else the default. */
  function SetDefault(given: Option<PyValue>, default: PyValue): (v: PyValue)
    ensures given.None? ==> v == default
    ensures given.Some? ==> v == given.value
  {
    if given.Some? then given.value else default
  }

  /**
   * create_superuser: the flags default to True, and `is not True` admits only the
   * bool True itself, not 1 or "True". A flag given as anything else is refused
   * before the mobile is looked at, the staff flag first, and nothing is stored; a
   * created superuser is staff and superuser.
   */
  function CreateSuperuser(db: Db, mobile: string, extra: ExtraFields): (t: Transition<Result<nat, ManagerError>>)
    ensures t.reply == Err(StaffMustBeTrue) <==> extra.isStaff.Some? && extra.isStaff.value != PyBool(true)
    ensures t.reply == Err(SuperuserMustBeTrue)
            <==> (extra.isStaff.Some? ==> extra.isStaff.value == PyBool(true))
                 && extra.isSuperuser.Some? && extra.isSuperuser.value != PyBool(true)
    ensures t.reply.Err? ==> t.after == db
    ensures t.after == db.(users := t.after.users)
    ensures t.reply.Ok? ==> |t.after.users| == |db.users| + 1 && t.after.users[..|db.users|] == db.users
                            && var u := t.after.users[|db.users|];
                               u.isStaff && u.isSuperuser && u.isActive && u.mobile == Strip(mobile)
  {
    var isStaff := SetDefault(extra.isStaff, PyBool(true));
    var isSuperuser := SetDefault(extra.isSuperuser, PyBool(true));
    if isStaff != PyBool(true) then Transition(db, Err(StaffMustBeTrue))
    else if isSuperuser != PyBool(true) then Transition(db, Err(SuperuserMustBeTrue))
    else CreateUser(db, mobile, true, true)
  }

  /** With no flags given, a superuser is a user created with both flags set. */
  lemma SuperuserDefaults(db: Db, mobile: string)
    ensures CreateSuperuser(db, mobile, ExtraFields(None, None)) == CreateUser(db, mobile, true, true)
    ensures mobile != "" && FindUser(db.users, Strip(mobile)).None? ==>
              var u := CreateSuperuser(db, mobile, ExtraFields(None, None)).after.users[|db.users|];
              u.isStaff && u.isSuperuser && u.mobile == Strip(mobile)
  {
  }

  /** Truthy values other than the bool True are still refused. */
  lemma SuperuserTruthyRefused(db: Db, mobile: string)
    ensures CreateSuperuser(db, mobile, ExtraFields(Some(PyInt(1)), None)).reply == Err(StaffMustBeTrue)
    ensures CreateSuperuser(db, mobile, ExtraFields(None, Some(PyStr("True")))).reply == Err(SuperuserMustBeTrue)
  {
  }
}
