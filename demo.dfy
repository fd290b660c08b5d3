/**
  The accounts/requests admin demo of `script.js`.

  The document `db` holds four collections: `users`, `employees`,
  `departments` and `requests`. `currentUser` is the logged-in user, or
  null. Every handler reads form fields and edits the document in place.
  Here the form fields, `prompt` answers and `confirm` answers are
  parameters, and the document and the session are the fields of one `Store`.
  User records are `Account` objects, because `currentUser` points at the same object
  as the matching entry of `users`: editing or verifying that entry also
  changes the session. No other entity is shared, so employees, departments
  and requests are values that are replaced at their index.

  Email matching in this file is exact (`===`).
 */
module Demo {
  import opened JsArray
  import opened JsString
  import opened Accounts

  const AdminRole := "admin"
  const UserRole := "user"
  /** Password given to an account added by an admin with an empty password field. */
  const DefaultPassword := "123456"
  const MinPasswordLength := 6

  datatype Employee = Employee(id: string, email: string, position: string, dept: string, hireDate: string)

  datatype Department = Department(id: int, name: string, description: string)

  /** One row of the request form: the quantity is the raw text of a number input. */
  datatype Item = Item(name: string, qty: string)

  /** The statuses this script sets: 'Pending' on submission, 'Approved' by `approveRequest`. */
  datatype Status = Pending | Approved

  datatype Request = Request(
    id: int, reqType: string, items: seq<Item>, status: Status,
    date: string, employeeEmail: string)

  /** The document as `JSON.parse` returns it from storage. */
  datatype Document = Document(
    users: seq<AccountData>, employees: seq<Employee>,
    departments: seq<Department>, requests: seq<Request>)

  /** What `localStorage.getItem` gave: nothing (null or ""), text that does not parse, or a document. */
  datatype Stored = Missing | Corrupt | Parsed(doc: Document)

  const DefaultAdmin := AccountData("Admin", "User", "admin@example.com", "Password123!", AdminRole, true)
  const DefaultDepartments := [Department(1, "Engineering", "Software devs"), Department(2, "HR", "Human Resources")]

  // ---------------------------------------------------------------------------
  // The predicates the handlers pass to find, findIndex and filter
  // ---------------------------------------------------------------------------

  function EmailIs(email: string): AccountData -> bool {
    (u: AccountData) => u.email == email
  }

  function CredentialsAre(email: string, password: string): AccountData -> bool {
    (u: AccountData) => u.email == email && u.password == password
  }

  function EmployeeIdIs(id: string): Employee -> bool {
    (e: Employee) => e.id == id
  }

  function EmployeeIdIsNot(id: string): Employee -> bool {
    (e: Employee) => e.id != id
  }

  function DepartmentIdIs(id: int): Department -> bool {
    (d: Department) => d.id == id
  }

  function DepartmentIdIsNot(id: int): Department -> bool {
    (d: Department) => d.id != id
  }

  function RequestIdIs(id: int): Request -> bool {
    (r: Request) => r.id == id
  }

  function RequestIdIsNot(id: int): Request -> bool {
    (r: Request) => r.id != id
  }

  /** No two users share an email (exact comparison): what registration and account creation check. */
  predicate UniqueEmails(us: seq<AccountData>) {
    forall i, j :: 0 <= i < j < |us| ==> us[i].email != us[j].email
  }

  // ---------------------------------------------------------------------------
  // Routing guard
  // ---------------------------------------------------------------------------

  const ProtectedRoutes: set<string> := {"#profile", "#requests"}
  const AdminRoutes: set<string> := {"#employees", "#departments", "#accounts"}

  /** The ids of the page elements those fragments name. */
  const ProtectedPages: set<string> := {"profile", "requests"}
  const AdminPages: set<string> := {"employees", "departments", "accounts"}

  /**
    What `document.querySelector(selector)` gives: the id of the element it
    selects, no element, or a throw because the text is not a valid CSS
    selector.
   */
  datatype Selection = Element(id: string) | NoElement | InvalidSelector

  /**
    The outcome of routing: a new fragment, the element (by id) that is made
    the active page, or no page at all when `querySelector` threw after every
    page was deactivated.
   */
  datatype Navigation = Redirect(hash: string) | Activate(page: string) | NoPage

  predicate IsAdmin(user: Option<AccountData>) {
    user.Some? && user.value.role == AdminRole
  }

  /** The fragment `handleRouting` works on: an empty `location.hash` means `#home`. */
  function EffectiveHash(locationHash: string): string {
    if locationHash == "" then "#home" else locationHash
  }

  /**
    `handleRouting` as written, for the fragment `locationHash`, the
    logged-in user `user`, and `select`, which is what `querySelector` gives
    for each selector text. The guards test the fragment text; the page
    activated is whatever element that text selects as a CSS selector, or
    `#home` when it selects none.
   */
  function Route(locationHash: string, user: Option<AccountData>, select: string -> Selection): (n: Navigation)
    ensures var h := EffectiveHash(locationHash);
      n == Redirect("#login") <==> (h in ProtectedRoutes || h in AdminRoutes) && user.None?
    ensures var h := EffectiveHash(locationHash);
      n == Redirect("#profile") <==> h in AdminRoutes && user.Some? && !IsAdmin(user)
    ensures n.Redirect? ==> n.hash == "#login" || n.hash == "#profile"
    ensures var h := EffectiveHash(locationHash);
      !n.Redirect? ==>
        && (select(h).InvalidSelector? ==> n == NoPage)
        && (select(h).NoElement? ==> n == Activate("home"))
        && (select(h).Element? ==> n == Activate(select(h).id))
    ensures var h := EffectiveHash(locationHash);
      n.Activate? && (h in ProtectedRoutes || h in AdminRoutes) ==> user.Some?
    ensures var h := EffectiveHash(locationHash);
      n.Activate? && h in AdminRoutes ==> IsAdmin(user)
  {
    var hash := EffectiveHash(locationHash);
    if (hash in ProtectedRoutes || hash in AdminRoutes) && user.None? then
      Redirect("#login")
    else if hash in AdminRoutes && user.Some? && user.value.role != AdminRole then
      Redirect("#profile")
    else
      match select(hash)
      case Element(id) => Activate(id)
      case NoElement => Activate("home")
      case InvalidSelector => NoPage
  }

  /** An empty fragment routes exactly as `#home` does. */
  lemma EmptyHashRoutesHome(user: Option<AccountData>, select: string -> Selection)
    ensures Route("", user, select) == Route("#home", user, select)
  {
  }

  /**
    The guard as written: `#accounts.page` is in neither guard list, yet as a
    selector it picks the accounts page element, which is shown to a visitor
    with no session.
   */
  lemma SelectorBypass(select: string -> Selection)
    requires select("#accounts.page") == Element("accounts")
    ensures "accounts" in AdminPages
    ensures Route("#accounts.page", None, select) == Activate("accounts")
  {
    assert "#accounts.page" !in ProtectedRoutes && "#accounts.page" !in AdminRoutes;
  }

  /** `handleRouting` with both guards applied to the page element about to be activated. */
  function GuardedRoute(locationHash: string, user: Option<AccountData>, select: string -> Selection): (n: Navigation)
    ensures n.Redirect? ==> n.hash == "#login" || n.hash == "#profile"
    ensures var sel := select(EffectiveHash(locationHash));
      && (sel.InvalidSelector? ==> n == NoPage)
      && (n.Activate? ==> n.page == if sel.Element? then sel.id else "home")
    ensures n.Activate? && n.page in ProtectedPages + AdminPages ==> user.Some?
    ensures n.Activate? && n.page in AdminPages ==> IsAdmin(user)
  {
    match select(EffectiveHash(locationHash))
    case InvalidSelector => NoPage
    case NoElement => Activate("home")
    case Element(page) =>
      if page in ProtectedPages + AdminPages && user.None? then Redirect("#login")
      else if page in AdminPages && !IsAdmin(user) then Redirect("#profile")
      else Activate(page)
  }

  /** A fragment '#' + name lies in a guard list exactly when name is one of that list's pages. */
  lemma HashOfPage(h: string)
    requires h != [] && h[0] == '#'
    ensures h in ProtectedRoutes <==> h[1..] in ProtectedPages
    ensures h in AdminRoutes <==> h[1..] in AdminPages
  {
    var name := h[1..];
    assert h == "#" + name;
    forall p | p in ProtectedPages + AdminPages
      ensures h == "#" + p <==> name == p
    {
      if h == "#" + p {
        assert name == ("#" + p)[1..];
      }
    }
    assert "#" + "profile" == "#profile" && "#" + "requests" == "#requests";
    assert "#" + "employees" == "#employees" && "#" + "departments" == "#departments";
    assert "#" + "accounts" == "#accounts";
  }

  /**
    For a fragment that selects the element its name is the id of, as the
    navigation links' fragments do, the correction changes nothing.
   */
  lemma GuardedRouteAgrees(locationHash: string, user: Option<AccountData>, select: string -> Selection)
    requires locationHash == [] || locationHash[0] == '#'
    requires var h := EffectiveHash(locationHash); h != [] && select(h) == Element(h[1..])
    ensures GuardedRoute(locationHash, user, select) == Route(locationHash, user, select)
  {
    HashOfPage(EffectiveHash(locationHash));
  }

  // ---------------------------------------------------------------------------
  // Pure decisions of the handlers
  // ---------------------------------------------------------------------------

  datatype LoginResult = InvalidCredentials | NotVerified(index: nat) | LoggedIn(index: nat)

  /** The login handler's decision: the first user with this exact email and password, and whether it is verified. */
  function LoginDecision(us: seq<AccountData>, email: string, password: string): (r: LoginResult)
    ensures r == InvalidCredentials <==> forall i :: 0 <= i < |us| ==> !(us[i].email == email && us[i].password == password)
    ensures r.LoggedIn? ==> r.index < |us| && us[r.index].email == email && us[r.index].password == password && us[r.index].verified
    ensures r.NotVerified? ==> r.index < |us| && us[r.index].email == email && us[r.index].password == password && !us[r.index].verified
    ensures !r.InvalidCredentials? ==> forall j :: 0 <= j < r.index ==> !(us[j].email == email && us[j].password == password)
  {
    match FindIndex(us, CredentialsAre(email, password))
    case None => InvalidCredentials
    case Some(i) => if us[i].verified then LoggedIn(i) else NotVerified(i)
  }

  /** When emails are unique, login succeeds exactly when some verified user has this email and password. */
  lemma LoginSucceedsIff(us: seq<AccountData>, email: string, password: string)
    requires UniqueEmails(us)
    ensures LoginDecision(us, email, password).LoggedIn?
        <==> exists i :: 0 <= i < |us| && us[i].email == email && us[i].password == password && us[i].verified
  {
    var r := LoginDecision(us, email, password);
    if r.NotVerified? {
      forall i | 0 <= i < |us| && us[i].email == email && us[i].password == password
        ensures !us[i].verified
      {
        if i != r.index {
          assert false;
        }
      }
    }
  }

  /**
    `approveRequest(id)`: the first request with this id becomes Approved,
    whatever its status was; nothing happens if no request has this id.
   */
  function Approve(rs: seq<Request>, id: int): (r: seq<Request>)
    ensures |r| == |rs|
    ensures forall k :: 0 <= k < |rs| ==> r[k] == rs[k] || (rs[k].id == id && r[k] == rs[k].(status := Approved))
    ensures forall k :: 0 <= k < |rs| && rs[k].id == id && (forall j :: 0 <= j < k ==> rs[j].id != id) ==> r[k].status == Approved
    ensures forall k, j :: 0 <= j < k < |rs| && rs[j].id == id ==> r[k] == rs[k]
    ensures forall k :: 0 <= k < |rs| && r[k].status == Pending ==> rs[k].status == Pending
  {
    match FindIndex(rs, RequestIdIs(id))
    case None => rs
    case Some(i) => rs[i := rs[i].(status := Approved)]
  }

  /** Registration, account creation and deletion keep the emails unique. */
  lemma UniqueEmailsAppend(us: seq<AccountData>, u: AccountData)
    requires UniqueEmails(us)
    requires forall i :: 0 <= i < |us| ==> us[i].email != u.email
    ensures UniqueEmails(us + [u])
  {
  }

  lemma {:induction false} UniqueEmailsFilter(us: seq<AccountData>, p: AccountData -> bool)
    requires UniqueEmails(us)
    ensures UniqueEmails(Filter(us, p))
  {
    if us != [] {
      UniqueEmailsFilter(us[1..], p);
      var rest := Filter(us[1..], p);
      if p(us[0]) {
        assert Filter(us, p) == [us[0]] + rest;
        forall i | 0 <= i < |rest| ensures rest[i].email != us[0].email {
          assert rest[i] in us[1..];
        }
      } else {
        assert Filter(us, p) == rest;
      }
    }
  }

  /** Editing, verifying or resetting a user leaves its email alone, so uniqueness survives. */
  lemma UniqueEmailsUpdate(us: seq<AccountData>, i: nat, u: AccountData)
    requires UniqueEmails(us) && i < |us| && u.email == us[i].email
    ensures UniqueEmails(us[i := u])
  {
  }

  // ---------------------------------------------------------------------------
  // The store: the document, the session and the handlers' globals
  // ---------------------------------------------------------------------------

  datatype AccountOutcome = Updated | EditTargetMissing | Created | DuplicateEmail
  datatype ResetOutcome = NoResetTarget | TooShort | PasswordReset
  datatype RequestOutcome = NoItems | NotLoggedIn | Submitted
  datatype EmployeeOutcome = EmployeeUpdated | EmployeeMissing | EmployeeCreated | DuplicateId

  class Store {
    var users: seq<Account>
    var employees: seq<Employee>
    var departments: seq<Department>
    var requests: seq<Request>
    var currentUser: Account?
    /** localStorage 'auth_token' and 'unverified_email'. */
    var authToken: Option<string>
    var unverifiedEmail: Option<string>
    /** The dialog globals currentEditingEmail, currentResetEmail, currentDeleteEmail,
        currentEditingEmployeeId and currentDeleteEmployeeId; "" stands for null,
        since every handler first tests them for truthiness. */
    var editingEmail: string
    var resetEmail: string
    var deleteEmail: string
    var editingEmployeeId: string
    var deleteEmployeeId: string

    ghost predicate Valid()
      reads this`users
    {
      Distinct(users)
    }

    function Users(): seq<AccountData>
      reads this`users, users
    {
      Snapshot(users)
    }

    /** The logged-in user's record as the guards see it. */
    function Session(): Option<AccountData>
      reads this`currentUser, currentUser
    {
      if currentUser == null then None else Some(currentUser.Data())
    }

    /**
      The page state before `loadFromStorage`: an empty document and no
      session. The `auth_token` and `unverified_email` entries of
      `localStorage` outlive a page load, so they are whatever an earlier
      page left there.
     */
    constructor (storedToken: Option<string>, storedUnverified: Option<string>)
      ensures Valid()
      ensures users == [] && employees == [] && departments == [] && requests == []
      ensures currentUser == null && authToken == storedToken && unverifiedEmail == storedUnverified
      ensures editingEmail == resetEmail == deleteEmail == editingEmployeeId == deleteEmployeeId == ""
    {
      users, employees, departments, requests := [], [], [], [];
      currentUser, authToken, unverifiedEmail := null, storedToken, storedUnverified;
      editingEmail, resetEmail, deleteEmail := "", "", "";
      editingEmployeeId, deleteEmployeeId := "", "";
    }

    /**
      `loadFromStorage`: a stored document replaces the whole document;
      without one, the default admin and departments are written over
      `users` and `departments` only. Text that does not parse makes
      `JSON.parse` throw and the document stays as it was.
     */
    method LoadFromStorage(stored: Stored)
      requires Valid()
      modifies this
      ensures Valid()
      ensures stored.Missing? ==>
        && Users() == [DefaultAdmin] && departments == DefaultDepartments
        && employees == old(employees) && requests == old(requests)
      ensures stored.Parsed? ==>
        && Users() == stored.doc.users && employees == stored.doc.employees
        && departments == stored.doc.departments && requests == stored.doc.requests
      ensures stored.Corrupt? ==>
        && users == old(users) && employees == old(employees)
        && departments == old(departments) && requests == old(requests)
      ensures forall i :: 0 <= i < |users| ==> fresh(users[i]) || stored.Corrupt?
      ensures currentUser == old(currentUser) && authToken == old(authToken) && unverifiedEmail == old(unverifiedEmail)
      ensures editingEmail == old(editingEmail) && resetEmail == old(resetEmail) && deleteEmail == old(deleteEmail)
      ensures editingEmployeeId == old(editingEmployeeId) && deleteEmployeeId == old(deleteEmployeeId)
    {
      match stored
      case Missing =>
        var admin := new Account(DefaultAdmin);
        users := [admin];
        departments := DefaultDepartments;
      case Corrupt =>
      case Parsed(doc) =>
        users := Materialize(doc.users);
        employees, departments, requests := doc.employees, doc.departments, doc.requests;
    }

    /**
      `checkSession`: the stored token logs in the first user whose email
      equals it; otherwise the session and the token are cleared.
     */
    method CheckSession()
      modifies this`currentUser, this`authToken
      ensures var i := if Truthy(old(authToken)) then FindIndex(Users(), EmailIs(old(authToken).value)) else None;
        if i.Some? then currentUser == users[i.value] && authToken == old(authToken)
        else currentUser == null && authToken == None
    {
      if Truthy(authToken) {
        var i := FindIndex(Users(), EmailIs(authToken.value));
        if i.Some? {
          currentUser := users[i.value];
          authToken := Some(currentUser.email);
          return;
        }
      }
      currentUser := null;
      authToken := None;
    }

    /** `logout`: the session and the token are cleared. */
    method Logout()
      modifies this`currentUser, this`authToken
      ensures currentUser == null && authToken == None
    {
      currentUser := null;
      authToken := None;
    }

    /** `handleRouting` reads the live session, so an edit of the logged-in user's role counts at once. */
    method HandleRouting(locationHash: string, select: string -> Selection) returns (n: Navigation)
      ensures n == Route(locationHash, Session(), select)
    {
      var user := if currentUser == null then None else Some(currentUser.Data());
      n := Route(locationHash, user, select);
    }

    /**
      The register form: rejected when some user already has exactly this
      email; otherwise one unverified user with role 'user' is appended and
      the email awaits verification. No password rule is applied.
     */
    method Register(firstName: string, lastName: string, email: string, password: string) returns (ok: bool)
      requires Valid()
      modifies this`users, this`unverifiedEmail
      ensures Valid()
      ensures ok <==> forall i :: 0 <= i < |old(users)| ==> old(Users())[i].email != email
      ensures ok ==> Users() == old(Users()) + [AccountData(firstName, lastName, email, password, UserRole, false)]
      ensures ok ==> users[..|old(users)|] == old(users) && fresh(users[|users| - 1]) && unverifiedEmail == Some(email)
      ensures !ok ==> users == old(users) && unverifiedEmail == old(unverifiedEmail)
      ensures UniqueEmails(old(Users())) ==> UniqueEmails(Users())
    {
      if FindIndex(Users(), EmailIs(email)).Some? {
        return false;
      }
      ghost var before := Users();
      var d := AccountData(firstName, lastName, email, password, UserRole, false);
      users := Append(users, d);
      unverifiedEmail := Some(email);
      if UniqueEmails(before) {
        UniqueEmailsAppend(before, d);
      }
      ok := true;
    }

    /**
      The login form: the first user with exactly this email and password
      becomes the session when verified; an unverified match only records
      the email for verification; no match changes nothing.
     */
    method Login(email: string, password: string) returns (r: LoginResult)
      modifies this`currentUser, this`authToken, this`unverifiedEmail
      ensures r == LoginDecision(old(Users()), email, password)
      ensures r.LoggedIn? ==> currentUser == users[r.index] && authToken == Some(email)
      ensures !r.LoggedIn? ==> currentUser == old(currentUser) && authToken == old(authToken)
      ensures unverifiedEmail == if r.NotVerified? then Some(email) else old(unverifiedEmail)
    {
      r := LoginDecision(Users(), email, password);
      match r
      case InvalidCredentials =>
      case NotVerified(_) =>
        unverifiedEmail := Some(email);
      case LoggedIn(i) =>
        currentUser := users[i];
        authToken := Some(currentUser.email);
    }

    /**
      `confirmEmailVerification` and `simulateEmailVerification` (the same
      state change): the first user whose email equals the pending one is
      marked verified and the pending email is dropped.
     */
    method ConfirmEmailVerification() returns (verified: bool)
      requires Valid()
      modifies users, this`unverifiedEmail
      ensures Valid() && users == old(users)
      ensures var i := if old(unverifiedEmail).Some? then FindIndex(old(Users()), EmailIs(old(unverifiedEmail).value)) else None;
        && verified == i.Some?
        && (i.Some? ==> Users() == old(Users())[i.value := old(Users())[i.value].(verified := true)] && unverifiedEmail == None)
        && (i.None? ==> Users() == old(Users()) && unverifiedEmail == old(unverifiedEmail))
      ensures UniqueEmails(old(Users())) ==> UniqueEmails(Users())
    {
      verified := false;
      if unverifiedEmail.None? {
        return;
      }
      var i := FindIndex(Users(), EmailIs(unverifiedEmail.value));
      if i.None? {
        return;
      }
      ghost var before := Users();
      var u := users[i.value];
      u.verified := true;
      unverifiedEmail := None;
      verified := true;
      SnapshotUpdate(users, before, i.value);
      if UniqueEmails(before) {
        UniqueEmailsUpdate(before, i.value, Users()[i.value]);
      }
    }

    /** `prepareAddAccount`: the account dialog will add. */
    method PrepareAddAccount()
      modifies this`editingEmail
      ensures editingEmail == ""
    {
      editingEmail := "";
    }

    /** `prepareEditAccount`: the account dialog will edit the user with this email, if there is one. */
    method PrepareEditAccount(email: string)
      modifies this`editingEmail
      ensures editingEmail == if FindIndex(Users(), EmailIs(email)).Some? then email else old(editingEmail)
    {
      if FindIndex(Users(), EmailIs(email)).Some? {
        editingEmail := email;
      }
    }

    /**
      `handleAccountSubmit`. Editing (a truthy `editingEmail`) overwrites the
      first user with that email: names, role and verified flag, and the
      password only when one was typed; the email never changes. Adding
      rejects an email some user already has and otherwise appends the
      account, with password '123456' when none was typed.
     */
    method HandleAccountSubmit(firstName: string, lastName: string, emailInput: string,
                               passwordInput: string, role: string, verified: bool)
      returns (outcome: AccountOutcome)
      requires Valid()
      modifies this`users, users
      ensures Valid()
      ensures editingEmail != "" ==>
        var i := FindIndex(old(Users()), EmailIs(editingEmail));
        && users == old(users)
        && (i.None? ==> outcome == EditTargetMissing && Users() == old(Users()))
        && (i.Some? ==>
             && outcome == Updated
             && Users() == old(Users())[i.value := AccountData(firstName, lastName, old(Users())[i.value].email,
                  if passwordInput != "" then passwordInput else old(Users())[i.value].password, role, verified)])
      ensures editingEmail == "" ==>
        && (outcome == DuplicateEmail <==> exists i :: 0 <= i < |old(users)| && old(Users())[i].email == emailInput)
        && (outcome == DuplicateEmail ==> users == old(users) && Users() == old(Users()))
        && (outcome != DuplicateEmail ==>
             && outcome == Created
             && Users() == old(Users()) + [AccountData(firstName, lastName, emailInput,
                  if passwordInput != "" then passwordInput else DefaultPassword, role, verified)]
             && users[..|old(users)|] == old(users) && fresh(users[|users| - 1]))
      ensures UniqueEmails(old(Users())) ==> UniqueEmails(Users())
    {
      if editingEmail != "" {
        outcome := SubmitEdit(firstName, lastName, passwordInput, role, verified);
      } else {
        outcome := SubmitAdd(firstName, lastName, emailInput, passwordInput, role, verified);
      }
    }

    /** The editing branch of `handleAccountSubmit`. */
    method SubmitEdit(firstName: string, lastName: string, passwordInput: string, role: string, verified: bool)
      returns (outcome: AccountOutcome)
      requires Valid()
      modifies users
      ensures Valid()
      ensures
        var i := FindIndex(old(Users()), EmailIs(editingEmail));
        && (i.None? ==> outcome == EditTargetMissing && Users() == old(Users()))
        && (i.Some? ==>
             && outcome == Updated
             && Users() == old(Users())[i.value := AccountData(firstName, lastName, old(Users())[i.value].email,
                  if passwordInput != "" then passwordInput else old(Users())[i.value].password, role, verified)])
      ensures UniqueEmails(old(Users())) ==> UniqueEmails(Users())
    {
      ghost var before := Users();
      var i := FindIndex(Users(), EmailIs(editingEmail));
      if i.None? {
        return EditTargetMissing;
      }
      var u := users[i.value];
      u.firstName := firstName;
      u.lastName := lastName;
      u.role := role;
      u.verified := verified;
      if passwordInput != "" {
        u.password := passwordInput;
      }
      SnapshotUpdate(users, before, i.value);
      if UniqueEmails(before) {
        UniqueEmailsUpdate(before, i.value, Users()[i.value]);
      }
      outcome := Updated;
    }

    /** The adding branch of `handleAccountSubmit`. */
    method SubmitAdd(firstName: string, lastName: string, emailInput: string,
                     passwordInput: string, role: string, verified: bool)
      returns (outcome: AccountOutcome)
      requires Valid()
      modifies this`users
      ensures Valid()
      ensures outcome == DuplicateEmail <==> exists i :: 0 <= i < |old(users)| && old(Users())[i].email == emailInput
      ensures outcome == DuplicateEmail ==> users == old(users)
      ensures outcome != DuplicateEmail ==>
        && outcome == Created
        && Users() == old(Users()) + [AccountData(firstName, lastName, emailInput,
             if passwordInput != "" then passwordInput else DefaultPassword, role, verified)]
        && users[..|old(users)|] == old(users) && fresh(users[|users| - 1])
      ensures UniqueEmails(old(Users())) ==> UniqueEmails(Users())
    {
      ghost var before := Users();
      if FindIndex(Users(), EmailIs(emailInput)).Some? {
        return DuplicateEmail;
      }
      var d := AccountData(firstName, lastName, emailInput,
        if passwordInput != "" then passwordInput else DefaultPassword, role, verified);
      users := Append(users, d);
      if UniqueEmails(before) {
        UniqueEmailsAppend(before, d);
      }
      outcome := Created;
    }

    /** `prepareResetPassword`: the reset dialog targets this email. */
    method PrepareResetPassword(email: string)
      modifies this`resetEmail
      ensures resetEmail == email
    {
      resetEmail := email;
    }

    /**
      `confirmResetPassword`: with a target user, a new password whose
      trimmed length is below 6 is refused; otherwise it is stored as typed
      (untrimmed) and nothing else changes.
     */
    method ConfirmResetPassword(newPassword: string) returns (outcome: ResetOutcome)
      requires Valid()
      modifies users
      ensures Valid()
      ensures var i := if resetEmail != "" then FindIndex(old(Users()), EmailIs(resetEmail)) else None;
        && (i.None? ==> outcome == NoResetTarget && Users() == old(Users()))
        && (i.Some? && |Trim(newPassword)| < MinPasswordLength ==> outcome == TooShort && Users() == old(Users()))
        && (i.Some? && |Trim(newPassword)| >= MinPasswordLength ==>
             && outcome == PasswordReset
             && Users() == old(Users())[i.value := old(Users())[i.value].(password := newPassword)])
      ensures UniqueEmails(old(Users())) ==> UniqueEmails(Users())
    {
      if resetEmail == "" {
        return NoResetTarget;
      }
      var i := FindIndex(Users(), EmailIs(resetEmail));
      if i.None? {
        return NoResetTarget;
      }
      if |Trim(newPassword)| < MinPasswordLength {
        return TooShort;
      }
      ghost var before := Users();
      users[i.value].password := newPassword;
      SnapshotUpdate(users, before, i.value);
      if UniqueEmails(before) {
        UniqueEmailsUpdate(before, i.value, Users()[i.value]);
      }
      outcome := PasswordReset;
    }

    /** `prepareDeleteAccount`: the delete dialog targets this email. */
    method PrepareDeleteAccount(email: string)
      modifies this`deleteEmail
      ensures deleteEmail == email
    {
      deleteEmail := email;
    }

    /**
      `confirmDeleteAccount`: every user with the target email is removed,
      the others keep their order. There is no self-delete guard and the
      session is left pointing at a removed user.
     */
    method ConfirmDeleteAccount()
      requires Valid()
      modifies this`users
      ensures Valid() && currentUser == old(currentUser)
      ensures deleteEmail == "" ==> users == old(users)
      ensures deleteEmail != "" ==>
        && Users() == Filter(old(Users()), EmailIsNot(deleteEmail))
        && (forall i :: 0 <= i < |users| ==> users[i] in old(users) && users[i].email != deleteEmail)
        && (forall i :: 0 <= i < |old(users)| && old(users)[i].email != deleteEmail ==> old(users)[i] in users)
      ensures UniqueEmails(old(Users())) ==> UniqueEmails(Users())
    {
      if deleteEmail == "" {
        return;
      }
      ghost var before := Users();
      WithoutSnapshot(users, deleteEmail);
      WithoutDistinct(users, deleteEmail);
      users := Without(users, deleteEmail);
      if UniqueEmails(before) {
        UniqueEmailsFilter(before, EmailIsNot(deleteEmail));
      }
    }

    /**
      The request form: with no item rows it is refused; without a session
      reading `currentUser.email` throws and nothing is stored; otherwise one
      Pending request owned by the session's email is appended.
     */
    method SubmitRequest(rows: seq<Item>, reqType: string, now: int, date: string) returns (outcome: RequestOutcome)
      modifies this`requests
      ensures outcome == (if rows == [] then NoItems else if currentUser == null then NotLoggedIn else Submitted)
      ensures outcome == Submitted ==> requests == old(requests) + [Request(now, reqType, rows, Pending, date, currentUser.email)]
      ensures outcome != Submitted ==> requests == old(requests)
    {
      if |rows| == 0 {
        return NoItems;
      }
      if currentUser == null {
        return NotLoggedIn;
      }
      requests := requests + [Request(now, reqType, rows, Pending, date, currentUser.email)];
      outcome := Submitted;
    }

    /** `approveRequest`. */
    method ApproveRequest(id: int)
      modifies this`requests
      ensures requests == Approve(old(requests), id)
    {
      var i := FindIndex(requests, RequestIdIs(id));
      if i.Some? {
        requests := requests[i.value := requests[i.value].(status := Approved)];
      }
    }

    /** `deleteRequest`: once confirmed, every request with this id is removed. */
    method DeleteRequest(id: int, confirmed: bool)
      modifies this`requests
      ensures requests == if confirmed then Filter(old(requests), RequestIdIsNot(id)) else old(requests)
    {
      if confirmed {
        requests := Filter(requests, RequestIdIsNot(id));
      }
    }

    /** `prepareEmployeeModal`: the employee dialog will add. */
    method PrepareEmployeeModal()
      modifies this`editingEmployeeId
      ensures editingEmployeeId == ""
    {
      editingEmployeeId := "";
    }

    /** `prepareEditEmployee`: the employee dialog will edit this id, if an employee has it. */
    method PrepareEditEmployee(id: string)
      modifies this`editingEmployeeId
      ensures editingEmployeeId == if FindIndex(employees, EmployeeIdIs(id)).Some? then id else old(editingEmployeeId)
    {
      if FindIndex(employees, EmployeeIdIs(id)).Some? {
        editingEmployeeId := id;
      }
    }

    /**
      `handleEmployeeSubmit`: editing replaces the record at the first index
      whose id is the edited one and leaves every other record alone; adding
      rejects an id that exists and otherwise appends.
     */
    method HandleEmployeeSubmit(data: Employee) returns (outcome: EmployeeOutcome)
      modifies this`employees
      ensures editingEmployeeId != "" ==>
        var i := FindIndex(old(employees), EmployeeIdIs(editingEmployeeId));
        && (i.None? ==> outcome == EmployeeMissing && employees == old(employees))
        && (i.Some? ==>
             && outcome == EmployeeUpdated && |employees| == |old(employees)| && employees[i.value] == data
             && forall k :: 0 <= k < |employees| && k != i.value ==> employees[k] == old(employees)[k])
      ensures editingEmployeeId == "" ==>
        && (outcome == DuplicateId <==> exists k :: 0 <= k < |old(employees)| && old(employees)[k].id == data.id)
        && (outcome == DuplicateId ==> employees == old(employees))
        && (outcome != DuplicateId ==> outcome == EmployeeCreated && employees == old(employees) + [data])
    {
      if editingEmployeeId != "" {
        var i := FindIndex(employees, EmployeeIdIs(editingEmployeeId));
        if i.None? {
          return EmployeeMissing;
        }
        employees := employees[i.value := data];
        outcome := EmployeeUpdated;
      } else {
        if FindIndex(employees, EmployeeIdIs(data.id)).Some? {
          return DuplicateId;
        }
        employees := employees + [data];
        outcome := EmployeeCreated;
      }
    }

    /** `prepareDeleteEmployee`: the delete dialog targets this id. */
    method PrepareDeleteEmployee(id: string)
      modifies this`deleteEmployeeId
      ensures deleteEmployeeId == id
    {
      deleteEmployeeId := id;
    }

    /** `confirmDeleteEmployee`: every employee with the target id is removed; nothing cascades. */
    method ConfirmDeleteEmployee()
      modifies this`employees
      ensures employees == if deleteEmployeeId == "" then old(employees) else Filter(old(employees), EmployeeIdIsNot(deleteEmployeeId))
    {
      if deleteEmployeeId == "" {
        return;
      }
      employees := Filter(employees, EmployeeIdIsNot(deleteEmployeeId));
    }

    /** `deleteEmployee`: once confirmed, every employee with this id is removed. */
    method DeleteEmployee(id: string, confirmed: bool)
      modifies this`employees
      ensures employees == if confirmed then Filter(old(employees), EmployeeIdIsNot(id)) else old(employees)
    {
      if confirmed {
        employees := Filter(employees, EmployeeIdIsNot(id));
      }
    }

    /**
      `editDepartment`: the first department with this id is renamed to the
      prompt's answer when it is non-empty. Without such a department,
      reading `dept.name` throws and nothing changes.
     */
    method EditDepartment(id: int, newName: Option<string>) returns (renamed: bool)
      modifies this`departments
      ensures var i := FindIndex(old(departments), DepartmentIdIs(id));
        && renamed == (i.Some? && Truthy(newName))
        && (renamed ==> departments == old(departments)[i.value := old(departments)[i.value].(name := newName.value)])
        && (!renamed ==> departments == old(departments))
    {
      var i := FindIndex(departments, DepartmentIdIs(id));
      if i.None? || !Truthy(newName) {
        return false;
      }
      departments := departments[i.value := departments[i.value].(name := newName.value)];
      renamed := true;
    }

    /** `deleteDepartment`: once confirmed, every department with this id is removed; employees keep their references. */
    method DeleteDepartment(id: int, confirmed: bool)
      modifies this`departments
      ensures departments == if confirmed then Filter(old(departments), DepartmentIdIsNot(id)) else old(departments)
    {
      if confirmed {
        departments := Filter(departments, DepartmentIdIsNot(id));
      }
    }
  }
}
