/**
  The frontend-only prototype of `fullstack-prototype-yourlastname/script.js`.

  `window.db` holds `accounts`, `departments`, `employees` and `requests`.
  `currentUser` is the logged-in account object, or null. Accounts are found
  by email without regard to case (`findAccountByEmail`), registration and
  login normalise the typed email (trim, then lower case), and an account
  may not delete itself. Click handlers read their input through `prompt`
  and `confirm`. Here each answer is a parameter, with `None` for a
  cancelled prompt.
 */
module Prototype {
  import opened JsArray
  import opened JsString
  import opened Accounts

  const AdminRole := "admin"
  const UserRole := "user"
  const MinPasswordLength := 6

  datatype Department = Department(id: string, name: string, description: string)

  datatype Employee = Employee(id: string, userEmail: string, position: string, deptId: string)

  /** One requested item; the quantity is `Number(answer) || 1`. */
  datatype Item = Item(name: string, qty: int)

  /** The only status this script ever sets is 'Pending'. */
  datatype Status = Pending

  datatype Request = Request(
    id: string, reqType: string, items: seq<Item>, status: Status,
    date: string, employeeEmail: string)

  /** The parsed document; `accounts` is None when the stored object has no such field. */
  datatype Document = Document(
    accounts: Option<seq<AccountData>>, departments: seq<Department>,
    employees: seq<Employee>, requests: seq<Request>)

  /** What storage gave: nothing (null or ""), text on which reading the document throws, or a document. */
  datatype Stored = Missing | Corrupt | Parsed(doc: Document)

  const DefaultAdmin := AccountData("Admin", "User", "admin@example.com", "Password123!", AdminRole, true)
  const DefaultDepartments := [Department("d1", "Engineering", ""), Department("d2", "HR", "")]

  // ---------------------------------------------------------------------------
  // Finding accounts
  // ---------------------------------------------------------------------------

  /** The predicate of `findAccountByEmail`: equal emails once both are lower-cased. */
  function SameEmail(email: string): AccountData -> bool {
    (a: AccountData) => ToLower(a.email) == ToLower(email)
  }

  /** `findAccountByEmail`: the first account whose email equals `email` up to case. */
  function FindAccountByEmail(s: seq<AccountData>, email: string): (r: Option<nat>)
    ensures r.Some? ==> r.value < |s| && ToLower(s[r.value].email) == ToLower(email)
    ensures r.Some? ==> forall j :: 0 <= j < r.value ==> ToLower(s[j].email) != ToLower(email)
    ensures r.None? <==> forall j :: 0 <= j < |s| ==> ToLower(s[j].email) != ToLower(email)
  {
    FindIndex(s, SameEmail(email))
  }

  /** Looking up an email and looking up its lower-cased form find the same account. */
  lemma FindAccountIgnoresCase(s: seq<AccountData>, email: string)
    ensures FindAccountByEmail(s, ToLower(email)) == FindAccountByEmail(s, email)
  {
    ToLowerIdempotent(email);
    assert SameEmail(ToLower(email)) == SameEmail(email);
  }

  /** No two accounts have emails that differ only in case: what registration and account creation check. */
  predicate UniqueEmails(s: seq<AccountData>) {
    forall i, j :: 0 <= i < j < |s| ==> ToLower(s[i].email) != ToLower(s[j].email)
  }

  /** Under unique emails, the account found for an email is the only one that matches it. */
  lemma FoundIsOnlyMatch(s: seq<AccountData>, email: string, k: nat)
    requires UniqueEmails(s) && k < |s| && ToLower(s[k].email) == ToLower(email)
    ensures FindAccountByEmail(s, email) == Some(k)
  {
    if FindAccountByEmail(s, email) != Some(k) {
      assert false;
    }
  }

  lemma UniqueEmailsAppend(s: seq<AccountData>, a: AccountData)
    requires UniqueEmails(s) && FindAccountByEmail(s, a.email).None?
    ensures UniqueEmails(s + [a])
  {
  }

  lemma UniqueEmailsUpdate(s: seq<AccountData>, i: nat, a: AccountData)
    requires UniqueEmails(s) && i < |s| && a.email == s[i].email
    ensures UniqueEmails(s[i := a])
  {
  }

  lemma {:induction false} UniqueEmailsFilter(s: seq<AccountData>, p: AccountData -> bool)
    requires UniqueEmails(s)
    ensures UniqueEmails(Filter(s, p))
  {
    if s != [] {
      UniqueEmailsFilter(s[1..], p);
      var rest := Filter(s[1..], p);
      if p(s[0]) {
        assert Filter(s, p) == [s[0]] + rest;
        forall i | 0 <= i < |rest| ensures ToLower(rest[i].email) != ToLower(s[0].email) {
          assert rest[i] in s[1..];
        }
      } else {
        assert Filter(s, p) == rest;
      }
    }
  }

  // ---------------------------------------------------------------------------
  // Routing
  // ---------------------------------------------------------------------------

  /** `s.indexOf(c)` for one character, None for -1. */
  function IndexOf(s: string, c: char): (r: Option<nat>)
    ensures r.Some? ==> r.value < |s| && s[r.value] == c
    ensures r.Some? ==> forall j :: 0 <= j < r.value ==> s[j] != c
    ensures r.None? ==> forall j :: 0 <= j < |s| ==> s[j] != c
  {
    if s == [] then None
    else if s[0] == c then Some(0)
    else match IndexOf(s[1..], c)
      case None => None
      case Some(i) => Some(i + 1)
  }

  /** `s.replace(c, '')` with a one-character pattern: the first `c`, if any, is cut out. */
  function RemoveFirst(s: string, c: char): (r: string)
    ensures IndexOf(s, c).None? ==> r == s
    ensures IndexOf(s, c).Some? ==> |r| == |s| - 1
    ensures IndexOf(s, c).Some? ==>
      var i := IndexOf(s, c).value;
      r[..i] == s[..i] && r[i..] == s[i + 1..]
  {
    match IndexOf(s, c)
    case None => s
    case Some(i) => s[..i] + s[i + 1..]
  }

  /** `s.split(c)[0]`: everything before the first `c`. */
  function BeforeFirst(s: string, c: char): (r: string)
    ensures |r| <= |s| && r == s[..|r|]
    ensures forall j :: 0 <= j < |r| ==> r[j] != c
    ensures |r| == |s| || s[|r|] == c
  {
    match IndexOf(s, c)
    case None => s
    case Some(i) => s[..i]
  }

  /** The route of `handleRouting`: the first '#' removed, "/" when nothing is left, the query cut off. */
  function RouteOf(locationHash: string): (route: string)
    ensures forall j :: 0 <= j < |route| ==> route[j] != '?'
    ensures locationHash == "" ==> route == "/"
  {
    var hash := RemoveFirst(locationHash, '#');
    BeforeFirst(if hash == "" then "/" else hash, '?')
  }

  /** A fragment "#" + path routes to path, with or without a query after it. */
  lemma RouteOfPath(path: string, query: string)
    requires path != [] && forall j :: 0 <= j < |path| ==> path[j] != '#' && path[j] != '?'
    ensures RouteOf("#" + path) == path
    ensures RouteOf("#" + path + "?" + query) == path
  {
    assert IndexOf("#" + path, '#') == Some(0);
    assert ("#" + path)[1..] == path;
    assert IndexOf("#" + path + "?" + query, '#') == Some(0);
    assert ("#" + path + "?" + query)[1..] == path + "?" + query;
    var s := path + "?" + query;
    assert s[|path|] == '?';
    assert forall j :: 0 <= j < |path| ==> s[j] == path[j];
    assert IndexOf(s, '?') == Some(|path|);
    assert (path + "?" + query)[..|path|] == path;
  }

  /** The id of the page element for a route: 'home-page' for "/", else the route without its first '/' plus '-page'. */
  function PageId(route: string): (id: string)
    ensures route == "/" ==> id == "home-page"
    ensures route != "/" ==> |id| >= 5 && id[|id| - 5..] == "-page"
  {
    if route == "/" then "home-page" else RemoveFirst(route, '/') + "-page"
  }

  /** The page of a route "/" + name is name + '-page'. */
  lemma PageIdOfSlash(name: string)
    requires name != []
    ensures PageId("/" + name) == name + "-page"
  {
    assert IndexOf("/" + name, '/') == Some(0);
    assert ("/" + name)[1..] == name;
    assert ("/" + name)[..0] == [];
  }

  /** A route without '/' names its page directly: name + '-page'. */
  lemma PageIdWithoutSlash(name: string)
    requires forall j :: 0 <= j < |name| ==> name[j] != '/'
    ensures PageId(name) == name + "-page"
  {
    assert IndexOf(name, '/').None?;
  }

  const AuthRequired: set<string> := {"/profile", "/my-requests", "/accounts", "/employees", "/departments"}
  const AdminRequired: set<string> := {"/accounts", "/employees", "/departments"}

  /** Every guarded route is '/' followed by at least seven characters. */
  lemma GuardedRouteShape(r: string)
    requires r in AuthRequired
    ensures |r| >= 8 && r[0] == '/'
  {
  }

  datatype Navigation = Redirect(hash: string) | Activate(page: string)

  predicate IsAdmin(user: Option<AccountData>) {
    user.Some? && user.value.role == AdminRole
  }

  /** `handleRouting` as written: the guards test the route, the page shown is derived from it afterwards. */
  function Route(locationHash: string, user: Option<AccountData>): (n: Navigation)
    ensures var r := RouteOf(locationHash);
      n == Redirect("#/login") <==> r in AuthRequired && user.None?
    ensures var r := RouteOf(locationHash);
      n == Redirect("#/") <==> r in AdminRequired && user.Some? && !IsAdmin(user)
    ensures n.Redirect? ==> n.hash == "#/login" || n.hash == "#/"
    ensures var r := RouteOf(locationHash);
      !(r in AuthRequired && user.None?) && !(r in AdminRequired && !IsAdmin(user)) ==> n == Activate(PageId(r))
    ensures n.Activate? ==> n.page == PageId(RouteOf(locationHash))
    ensures n.Activate? && RouteOf(locationHash) in AuthRequired ==> user.Some?
    ensures n.Activate? && RouteOf(locationHash) in AdminRequired ==> IsAdmin(user)
  {
    var route := RouteOf(locationHash);
    if route in AuthRequired && user.None? then Redirect("#/login")
    else if route in AdminRequired && !IsAdmin(user) then Redirect("#/")
    else Activate(PageId(route))
  }

  /**
    The guard as written: a fragment "#" + name without the slash skips both
    guards, yet shows the page of the guarded route "/" + name.
   */
  lemma GuardBypass(name: string, user: Option<AccountData>)
    requires name != [] && forall j :: 0 <= j < |name| ==> name[j] != '#' && name[j] != '?' && name[j] != '/'
    ensures Route("#" + name, user) == Activate(PageId("/" + name))
  {
    RouteOfPath(name, "");
    PageIdWithoutSlash(name);
    PageIdOfSlash(name);
    if name in AuthRequired {
      GuardedRouteShape(name);
    }
  }

  /** "#accounts" shows the admin-only accounts page to a visitor who is not logged in. */
  lemma AccountsPageBypass()
    ensures "/accounts" in AdminRequired
    ensures Route("#accounts", None) == Activate("accounts-page")
  {
    assert "#" + "accounts" == "#accounts";
    assert "/" + "accounts" == "/accounts";
    assert "accounts" + "-page" == "accounts-page";
    GuardBypass("accounts", None);
    PageIdOfSlash("accounts");
  }

  /** `RemoveFirst` of a string that starts with the character drops that first character. */
  lemma RemoveFirstAtStart(s: string, c: char)
    requires s != [] && s[0] == c
    ensures RemoveFirst(s, c) == s[1..]
  {
    assert IndexOf(s, c) == Some(0);
  }

  /** The route whose page `route` shows: "/" followed by the route without its first '/'. */
  function PageRoute(route: string): (r: string)
    ensures PageId(r) == PageId(route)
    ensures r == [] || r == "/" || (|r| >= 2 && r[0] == '/')
    ensures route != [] && route[0] == '/' ==> r == route
  {
    var name := RemoveFirst(route, '/');
    if name == [] then
      assert route == [] || route == "/" by {
        if route != [] && IndexOf(route, '/').Some? {
          assert route[0] == '/';
        }
      }
      route
    else
      PageIdOfSlash(name);
      if route != [] && route[0] == '/' then
        RemoveFirstAtStart(route, '/');
        assert route == "/" + name;
        "/" + name
      else "/" + name
  }

  /** `handleRouting` with both guards applied to the route of the page that is about to be shown. */
  function GuardedRoute(locationHash: string, user: Option<AccountData>): (n: Navigation)
    ensures n.Activate? ==> n.page == PageId(RouteOf(locationHash))
    ensures n.Redirect? ==> n.hash == "#/login" || n.hash == "#/"
  {
    var route := RouteOf(locationHash);
    var guarded := PageRoute(route);
    if guarded in AuthRequired && user.None? then Redirect("#/login")
    else if guarded in AdminRequired && !IsAdmin(user) then Redirect("#/")
    else Activate(PageId(route))
  }

  /** A page route that shows the same page as a guarded route is that route. */
  lemma SamePageSameRoute(p: string, r: string)
    requires r in AuthRequired
    requires p == [] || p == "/" || (|p| >= 2 && p[0] == '/')
    requires PageId(p) == PageId(r)
    ensures p == r
  {
    GuardedRouteShape(r);
    assert r == "/" + r[1..];
    PageIdOfSlash(r[1..]);
    if p == [] || p == "/" {
      assert false;
    } else {
      assert p == "/" + p[1..];
      PageIdOfSlash(p[1..]);
      assert p[1..] + "-page" == r[1..] + "-page";
      assert p[1..] == (p[1..] + "-page")[..|p| - 1];
      assert r[1..] == (r[1..] + "-page")[..|r| - 1];
    }
  }

  /** With the correction, the page of a route that requires login, or admin, is shown only with a session, or an admin one. */
  lemma GuardedRouteProtects(locationHash: string, user: Option<AccountData>, r: string)
    requires r in AuthRequired
    requires GuardedRoute(locationHash, user) == Activate(PageId(r))
    ensures user.Some?
    ensures r in AdminRequired ==> IsAdmin(user)
  {
    var route := RouteOf(locationHash);
    SamePageSameRoute(PageRoute(route), r);
  }

  /** For every route that starts with '/', as the navigation links' routes do, the correction changes nothing. */
  lemma GuardedRouteAgrees(locationHash: string, user: Option<AccountData>)
    requires var r := RouteOf(locationHash); r != [] && r[0] == '/'
    ensures GuardedRoute(locationHash, user) == Route(locationHash, user)
  {
  }

  // ---------------------------------------------------------------------------
  // Request items
  // ---------------------------------------------------------------------------

  /** One round of the item loop: the name prompt's answer and `Number()` of the quantity prompt's (None for NaN). */
  datatype ItemAnswer = ItemAnswer(name: Option<string>, qty: Option<int>)

  /** `Number(qty) || 1`: 0 and NaN become 1, every other number is kept, negatives included. */
  function Quantity(qty: Option<int>): (q: int)
    ensures q != 0
    ensures qty.Some? && qty.value != 0 ==> q == qty.value
    ensures qty.None? || qty.value == 0 ==> q == 1
  {
    if qty.Some? && qty.value != 0 then qty.value else 1
  }

  /** The items the loop collects: one per answer up to the first blank or cancelled name. */
  function ItemsOf(answers: seq<ItemAnswer>): (items: seq<Item>)
    ensures |items| <= |answers|
    ensures |items| < |answers| ==> !Truthy(answers[|items|].name)
  {
    if answers == [] || !Truthy(answers[0].name) then []
    else [Item(answers[0].name.value, Quantity(answers[0].qty))] + ItemsOf(answers[1..])
  }

  /** Every collected item comes from the answer at its position, whose name was filled in. */
  lemma {:induction false} ItemsOfMeaning(answers: seq<ItemAnswer>)
    ensures var items := ItemsOf(answers);
      forall k :: 0 <= k < |items| ==> Truthy(answers[k].name) && items[k] == Item(answers[k].name.value, Quantity(answers[k].qty))
  {
    if answers != [] && Truthy(answers[0].name) {
      ItemsOfMeaning(answers[1..]);
    }
  }

  /** The items collected from position `k` on: that answer's item and the rest, or nothing at a blank name. */
  lemma ItemsOfFrom(answers: seq<ItemAnswer>, k: nat)
    requires k < |answers|
    ensures ItemsOf(answers[k..]) ==
      if Truthy(answers[k].name) then [Item(answers[k].name.value, Quantity(answers[k].qty))] + ItemsOf(answers[k + 1..])
      else []
  {
    assert answers[k..][1..] == answers[k + 1..];
  }

  /** The `while(true)` loop of the new-request handler, reading answers until a name is blank. */
  method ReadItems(answers: seq<ItemAnswer>) returns (items: seq<Item>)
    ensures items == ItemsOf(answers)
  {
    items := [];
    var k := 0;
    while k < |answers| && Truthy(answers[k].name)
      invariant 0 <= k <= |answers|
      invariant ItemsOf(answers) == items + ItemsOf(answers[k..])
    {
      ItemsOfFrom(answers, k);
      items := items + [Item(answers[k].name.value, Quantity(answers[k].qty))];
      k := k + 1;
    }
    if k < |answers| {
      ItemsOfFrom(answers, k);
    }
  }

  // ---------------------------------------------------------------------------
  // Pure decisions of the handlers
  // ---------------------------------------------------------------------------

  /** The email as registration and login read it: trimmed, then lower-cased. */
  function NormalizedEmail(typed: string): (email: string)
    ensures |email| == |Trim(typed)|
    ensures forall k :: 0 <= k < |email| ==> email[k] == LowerChar(Trim(typed)[k])
    ensures ToLower(email) == email
  {
    ToLowerAt(Trim(typed));
    ToLowerIdempotent(Trim(typed));
    ToLower(Trim(typed))
  }

  /** The register form's four fields. */
  datatype RegisterForm = RegisterForm(firstName: string, lastName: string, email: string, password: string)

  /**
    What the register handler reads from the form: each name with its
    surrounding whitespace cut away, the email trimmed the same way and then
    lower-cased character by character, the password as typed.
   */
  function ReadRegisterForm(f: RegisterForm): (r: RegisterForm)
    ensures r.password == f.password
    ensures IsTrimmed(r.firstName, f.firstName) && IsTrimmed(r.lastName, f.lastName)
    ensures IsTrimmed(Trim(f.email), f.email)
    ensures |r.email| == |Trim(f.email)|
    ensures forall k :: 0 <= k < |r.email| ==> r.email[k] == LowerChar(Trim(f.email)[k])
    ensures ToLower(r.email) == r.email
  {
    TrimIsSlice(f.firstName);
    TrimIsSlice(f.lastName);
    TrimIsSlice(f.email);
    RegisterForm(Trim(f.firstName), Trim(f.lastName), NormalizedEmail(f.email), f.password)
  }

  /** A form already read reads the same again: trimming and lower-casing are settled. */
  lemma ReadRegisterFormIdempotent(f: RegisterForm)
    ensures ReadRegisterForm(ReadRegisterForm(f)) == ReadRegisterForm(f)
  {
    TrimIdempotent(f.firstName);
    TrimIdempotent(f.lastName);
    TrimIdempotent(f.email);
    TrimToLower(Trim(f.email));
    ToLowerIdempotent(Trim(f.email));
  }

  /** The login form's decision for the email as read: the account found for it, if its password is the typed one and it is verified. */
  function LoginMatch(s: seq<AccountData>, email: string, password: string): (r: Option<nat>)
    ensures r.Some? ==>
      && r.value < |s| && ToLower(s[r.value].email) == ToLower(email)
      && s[r.value].password == password && s[r.value].verified
    ensures r.None? <==> match FindAccountByEmail(s, email)
        case None => true
        case Some(i) => s[i].password != password || !s[i].verified
  {
    match FindAccountByEmail(s, email)
    case None => None
    case Some(i) => if s[i].password == password && s[i].verified then Some(i) else None
  }

  /** With emails unique up to case, login succeeds exactly when some verified account has this email (up to case) and password. */
  lemma LoginSucceedsIff(s: seq<AccountData>, email: string, password: string)
    requires UniqueEmails(s)
    ensures LoginMatch(s, email, password).Some?
        <==> exists k :: 0 <= k < |s| && ToLower(s[k].email) == ToLower(email) && s[k].password == password && s[k].verified
  {
    if k :| 0 <= k < |s| && ToLower(s[k].email) == ToLower(email) && s[k].password == password && s[k].verified {
      FoundIsOnlyMatch(s, email, k);
    }
  }

  /** The handler's lower-casing of the typed email changes nothing: the lookup already ignores case. */
  lemma LoginIgnoresCase(s: seq<AccountData>, typed: string, password: string)
    ensures LoginMatch(s, NormalizedEmail(typed), password) == LoginMatch(s, Trim(typed), password)
  {
    FindAccountIgnoresCase(s, Trim(typed));
  }

  datatype DeleteOutcome = DeleteAborted | CannotDeleteSelf | DeleteCancelled | Deleted

  /**
    The Delete button's decision. Reading the email of a missing account
    throws; the account found for the row's email may not have the session's
    email; the confirm dialog decides the rest.
   */
  function DeleteDecision(s: seq<AccountData>, session: Option<AccountData>, email: string, confirmed: bool): (r: DeleteOutcome)
    ensures r == DeleteAborted <==> FindAccountByEmail(s, email).None?
    ensures r == CannotDeleteSelf <==>
      && FindAccountByEmail(s, email).Some? && session.Some?
      && s[FindAccountByEmail(s, email).value].email == session.value.email
    ensures r == Deleted ==> confirmed
    ensures r == DeleteCancelled ==> !confirmed
  {
    match FindAccountByEmail(s, email)
    case None => DeleteAborted
    case Some(i) =>
      if session.Some? && s[i].email == session.value.email then CannotDeleteSelf
      else if !confirmed then DeleteCancelled
      else Deleted
  }

  /**
    The guard compares emails of the found account and the session, while the
    filter compares emails exactly. When emails are unique up to case, a
    delete that passes the guard keeps the session's account.
   */
  lemma DeleteKeepsSession(s: seq<AccountData>, email: string, confirmed: bool, k: nat)
    requires UniqueEmails(s) && k < |s|
    requires DeleteDecision(s, Some(s[k]), email, confirmed) == Deleted
    ensures s[k].email != email
    ensures s[k] in Filter(s, EmailIsNot(email))
  {
    if s[k].email == email {
      FoundIsOnlyMatch(s, email, k);
      assert false;
    }
  }

  // ---------------------------------------------------------------------------
  // The store
  // ---------------------------------------------------------------------------

  datatype RegisterOutcome = WeakPassword | EmailExists | Registered
  datatype VerifyOutcome = NoPendingVerification | AccountNotFound | EmailVerified
  datatype ResetOutcome = InvalidPassword | NoAccount | PasswordReset
  datatype AddOutcome = NoFirstName | NoEmail | DuplicateEmail | WeakNewPassword | AccountAdded
  datatype RequestOutcome = NotLoggedIn | NoType | NoItems | Submitted

  class Store {
    var accounts: seq<Account>
    var departments: seq<Department>
    var employees: seq<Employee>
    var requests: seq<Request>
    var currentUser: Account?
    /** localStorage 'auth_token' and 'unverified_email'. */
    var authToken: Option<string>
    var unverifiedEmail: Option<string>

    ghost predicate Valid()
      reads this`accounts
    {
      Distinct(accounts)
    }

    function Accounts(): seq<AccountData>
      reads this`accounts, accounts
    {
      Snapshot(accounts)
    }

    /** The logged-in account's record. */
    function Session(): Option<AccountData>
      reads this`currentUser, currentUser
    {
      if currentUser == null then None else Some(currentUser.Data())
    }

    /** The script's initial state: an empty document, no session; storage keeps its two keys from earlier visits. */
    constructor (storedToken: Option<string>, storedUnverified: Option<string>)
      ensures Valid()
      ensures accounts == [] && departments == [] && employees == [] && requests == []
      ensures currentUser == null && authToken == storedToken && unverifiedEmail == storedUnverified
    {
      accounts, departments, employees, requests := [], [], [], [];
      currentUser, authToken, unverifiedEmail := null, storedToken, storedUnverified;
    }

    /** `seedDefault`: one verified admin, departments d1 and d2, nothing else. */
    method SeedDefault()
      modifies this`accounts, this`departments, this`employees, this`requests
      ensures Valid()
      ensures Accounts() == [DefaultAdmin] && fresh(accounts[0])
      ensures departments == DefaultDepartments && employees == [] && requests == []
    {
      var admin := new Account(DefaultAdmin);
      accounts := [admin];
      departments, employees, requests := DefaultDepartments, [], [];
    }

    /**
      `loadFromStorage`: the stored document is used when there is one and it
      has an `accounts` field; missing storage, a failed read, or a document
      without accounts reseed the defaults.
     */
    method LoadFromStorage(stored: Stored)
      modifies this`accounts, this`departments, this`employees, this`requests
      ensures Valid()
      ensures forall i :: 0 <= i < |accounts| ==> fresh(accounts[i])
      ensures stored.Parsed? && stored.doc.accounts.Some? ==>
        && Accounts() == stored.doc.accounts.value
        && departments == stored.doc.departments && employees == stored.doc.employees
        && requests == stored.doc.requests
      ensures !(stored.Parsed? && stored.doc.accounts.Some?) ==>
        && Accounts() == [DefaultAdmin]
        && departments == DefaultDepartments && employees == [] && requests == []
    {
      if stored.Parsed? && stored.doc.accounts.Some? {
        accounts := Materialize(stored.doc.accounts.value);
        departments, employees, requests := stored.doc.departments, stored.doc.employees, stored.doc.requests;
      } else {
        SeedDefault();
      }
    }

    /** `initAuthFromStorage`: a stored token logs in the account found for it; otherwise nothing changes. */
    method InitAuthFromStorage()
      modifies this`currentUser
      ensures var i := if Truthy(authToken) then FindAccountByEmail(Accounts(), authToken.value) else None;
        currentUser == if i.Some? then accounts[i.value] else old(currentUser)
    {
      if Truthy(authToken) {
        var i := FindAccountByEmail(Accounts(), authToken.value);
        if i.Some? {
          currentUser := accounts[i.value];
        }
      }
    }

    /**
      The register form, after `ReadRegisterForm`: a password shorter than 6
      or an email some account has (up to case) is refused; otherwise one
      unverified 'user' account is appended and its email awaits verification.
     */
    method Register(form: RegisterForm) returns (outcome: RegisterOutcome)
      requires Valid()
      modifies this`accounts, this`unverifiedEmail
      ensures Valid()
      ensures outcome == (if |form.password| < MinPasswordLength then WeakPassword
        else if FindAccountByEmail(old(Accounts()), form.email).Some? then EmailExists
        else Registered)
      ensures outcome == Registered ==>
        && Accounts() == old(Accounts()) + [AccountData(form.firstName, form.lastName, form.email, form.password, UserRole, false)]
        && accounts[..|old(accounts)|] == old(accounts) && fresh(accounts[|accounts| - 1])
        && unverifiedEmail == Some(form.email)
      ensures outcome != Registered ==> accounts == old(accounts) && unverifiedEmail == old(unverifiedEmail)
    {
      if |form.password| < MinPasswordLength {
        return WeakPassword;
      }
      if FindAccountByEmail(Accounts(), form.email).Some? {
        return EmailExists;
      }
      var d := AccountData(form.firstName, form.lastName, form.email, form.password, UserRole, false);
      accounts := Append(accounts, d);
      unverifiedEmail := Some(form.email);
      outcome := Registered;
    }

    /**
      The login form, with the email as read (`NormalizedEmail`): the account
      found for it becomes the session, and its email the token, when the
      password matches exactly and it is verified; otherwise nothing changes.
     */
    method Login(email: string, password: string) returns (r: Option<nat>)
      modifies this`currentUser, this`authToken
      ensures r == LoginMatch(old(Accounts()), email, password)
      ensures r.Some? ==> currentUser == accounts[r.value] && authToken == Some(accounts[r.value].email)
      ensures r.None? ==> currentUser == old(currentUser) && authToken == old(authToken)
    {
      r := LoginMatch(Accounts(), email, password);
      if r.Some? {
        var a := accounts[r.value];
        authToken := Some(a.email);
        currentUser := a;
      }
    }

    /**
      The simulate-verify button: with a pending email and an account found
      for it, that account becomes verified and the pending email is dropped.
     */
    method SimulateVerify() returns (outcome: VerifyOutcome)
      requires Valid()
      modifies accounts, this`unverifiedEmail
      ensures Valid() && accounts == old(accounts)
      ensures !Truthy(old(unverifiedEmail)) ==> outcome == NoPendingVerification && Accounts() == old(Accounts()) && unverifiedEmail == old(unverifiedEmail)
      ensures Truthy(old(unverifiedEmail)) ==>
        var i := FindAccountByEmail(old(Accounts()), old(unverifiedEmail).value);
        && (i.None? ==> outcome == AccountNotFound && Accounts() == old(Accounts()) && unverifiedEmail == old(unverifiedEmail))
        && (i.Some? ==>
             && outcome == EmailVerified && unverifiedEmail == None
             && Accounts() == old(Accounts())[i.value := old(Accounts())[i.value].(verified := true)])
    {
      if !Truthy(unverifiedEmail) {
        return NoPendingVerification;
      }
      var i := FindAccountByEmail(Accounts(), unverifiedEmail.value);
      if i.None? {
        return AccountNotFound;
      }
      ghost var before := Accounts();
      accounts[i.value].verified := true;
      unverifiedEmail := None;
      SnapshotUpdate(accounts, before, i.value);
      outcome := EmailVerified;
    }

    /** The logout link: the token and the session are cleared. */
    method Logout()
      modifies this`currentUser, this`authToken
      ensures currentUser == null && authToken == None
    {
      authToken := None;
      currentUser := null;
    }

    /**
      The Edit button: each name prompt answered with a non-empty value
      replaces that name of the account found for the row's email. Nothing
      else changes; with no such account reading `acc.firstName` throws.
     */
    method EditAccount(email: string, firstName: Option<string>, lastName: Option<string>) returns (found: bool)
      requires Valid()
      modifies accounts
      ensures Valid()
      ensures var i := FindAccountByEmail(old(Accounts()), email);
        && found == i.Some?
        && (i.None? ==> Accounts() == old(Accounts()))
        && (i.Some? ==> Accounts() == old(Accounts())[i.value := old(Accounts())[i.value].(
             firstName := if Truthy(firstName) then firstName.value else old(Accounts())[i.value].firstName,
             lastName := if Truthy(lastName) then lastName.value else old(Accounts())[i.value].lastName)])
    {
      var i := FindAccountByEmail(Accounts(), email);
      if i.None? {
        return false;
      }
      ghost var before := Accounts();
      var a := accounts[i.value];
      if Truthy(firstName) {
        a.firstName := firstName.value;
      }
      if Truthy(lastName) {
        a.lastName := lastName.value;
      }
      SnapshotUpdate(accounts, before, i.value);
      found := true;
    }

    /**
      The Reset PW button: a cancelled, empty or shorter-than-6 answer is
      refused; otherwise it becomes the password of the account found for the
      row's email, and nothing else changes.
     */
    method ResetPassword(email: string, newPassword: Option<string>) returns (outcome: ResetOutcome)
      requires Valid()
      modifies accounts
      ensures Valid()
      ensures var i := FindAccountByEmail(old(Accounts()), email);
        && (!Truthy(newPassword) || |newPassword.value| < MinPasswordLength ==> outcome == InvalidPassword && Accounts() == old(Accounts()))
        && (Truthy(newPassword) && |newPassword.value| >= MinPasswordLength && i.None? ==> outcome == NoAccount && Accounts() == old(Accounts()))
        && (Truthy(newPassword) && |newPassword.value| >= MinPasswordLength && i.Some? ==>
             && outcome == PasswordReset
             && Accounts() == old(Accounts())[i.value := old(Accounts())[i.value].(password := newPassword.value)])
    {
      var i := FindAccountByEmail(Accounts(), email);
      if !Truthy(newPassword) || |newPassword.value| < MinPasswordLength {
        return InvalidPassword;
      }
      if i.None? {
        return NoAccount;
      }
      ghost var before := Accounts();
      accounts[i.value].password := newPassword.value;
      SnapshotUpdate(accounts, before, i.value);
      outcome := PasswordReset;
    }

    /**
      The Delete button: decided by `DeleteDecision`; when it is `Deleted`,
      every account whose email is exactly the row's is removed and the rest
      keep their order.
     */
    method DeleteAccount(email: string, confirmed: bool) returns (outcome: DeleteOutcome)
      requires Valid()
      modifies this`accounts
      ensures Valid()
      ensures outcome == DeleteDecision(old(Accounts()), Session(), email, confirmed)
      ensures outcome != Deleted ==> accounts == old(accounts)
      ensures outcome == Deleted ==>
        && Accounts() == Filter(old(Accounts()), EmailIsNot(email))
        && forall i :: 0 <= i < |old(accounts)| && old(accounts)[i].email != email ==> old(accounts)[i] in accounts
    {
      outcome := DeleteDecision(Accounts(), Session(), email, confirmed);
      if outcome != Deleted {
        return;
      }
      WithoutSnapshot(accounts, email);
      WithoutDistinct(accounts, email);
      accounts := Without(accounts, email);
    }

    /**
      The Add Account button: a blank first name or email ends it; an email
      some account has (up to case) or a password shorter than 6 is refused;
      otherwise the account is appended as typed, with role 'user' when the
      role prompt is left blank.
     */
    method AddAccount(firstName: Option<string>, lastName: Option<string>, email: Option<string>,
                      password: Option<string>, role: Option<string>, verified: bool)
      returns (outcome: AddOutcome)
      requires Valid()
      modifies this`accounts
      ensures Valid()
      ensures var pw := if Truthy(password) then password.value else "";
        outcome == (if !Truthy(firstName) then NoFirstName
          else if !Truthy(email) then NoEmail
          else if FindAccountByEmail(old(Accounts()), email.value).Some? then DuplicateEmail
          else if |pw| < MinPasswordLength then WeakNewPassword
          else AccountAdded)
      ensures outcome != AccountAdded ==> accounts == old(accounts)
      ensures outcome == AccountAdded ==>
        && Accounts() == old(Accounts()) + [AccountData(firstName.value,
             if Truthy(lastName) then lastName.value else "", email.value, password.value,
             if Truthy(role) then role.value else UserRole, verified)]
        && accounts[..|old(accounts)|] == old(accounts) && fresh(accounts[|accounts| - 1])
    {
      if !Truthy(firstName) {
        return NoFirstName;
      }
      var ln := if Truthy(lastName) then lastName.value else "";
      if !Truthy(email) {
        return NoEmail;
      }
      if FindAccountByEmail(Accounts(), email.value).Some? {
        return DuplicateEmail;
      }
      var pw := if Truthy(password) then password.value else "";
      if |pw| < MinPasswordLength {
        return WeakNewPassword;
      }
      var r := if Truthy(role) then role.value else UserRole;
      accounts := Append(accounts, AccountData(firstName.value, ln, email.value, pw, r, verified));
      outcome := AccountAdded;
    }

    /**
      The New Request button: without a session it goes to login; a blank
      type ends it; zero items are refused; otherwise one Pending request with
      id 'r' + now, owned by the session's email, is appended.
     */
    method NewRequest(reqType: Option<string>, answers: seq<ItemAnswer>, now: nat, date: string)
      returns (outcome: RequestOutcome)
      modifies this`requests
      ensures outcome == (if currentUser == null then NotLoggedIn
        else if !Truthy(reqType) then NoType
        else if ItemsOf(answers) == [] then NoItems
        else Submitted)
      ensures outcome != Submitted ==> requests == old(requests)
      ensures outcome == Submitted ==>
        requests == old(requests) + [Request("r" + DecimalString(now), reqType.value, ItemsOf(answers), Pending, date, currentUser.email)]
    {
      if currentUser == null {
        return NotLoggedIn;
      }
      if !Truthy(reqType) {
        return NoType;
      }
      var items := ReadItems(answers);
      if |items| == 0 {
        return NoItems;
      }
      requests := requests + [Request("r" + DecimalString(now), reqType.value, items, Pending, date, currentUser.email)];
      outcome := Submitted;
    }
  }
}
