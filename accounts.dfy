/**
  The account record both scripts keep in their document:
  `{ firstName, lastName, email, password, role, verified }`.

  The scripts assign the fields of these records in place (`user.verified =
  true`, `acc.password = pw`), and their `currentUser` is the same object as
  the matching entry of the collection. So an account is an object here, and a
  collection is a sequence of objects. `AccountData` holds the field values
  and is what the specifications compare.
 */
module Accounts {
  import opened JsArray

  datatype AccountData = AccountData(
    firstName: string, lastName: string, email: string,
    password: string, role: string, verified: bool)

  class Account {
    var firstName: string
    var lastName: string
    var email: string
    var password: string
    var role: string
    var verified: bool

    constructor (d: AccountData)
      ensures Data() == d
    {
      firstName, lastName, email := d.firstName, d.lastName, d.email;
      password, role, verified := d.password, d.role, d.verified;
    }

    /** The record's current field values. */
    function Data(): AccountData
      reads this
    {
      AccountData(firstName, lastName, email, password, role, verified)
    }
  }

  /** The field values of a collection of account objects. */
  function Snapshot(us: seq<Account>): seq<AccountData>
    reads us
  {
    seq(|us|, i reads us requires 0 <= i < |us| => us[i].Data())
  }

  /** No object appears twice in a collection. */
  predicate Distinct(us: seq<Account>) {
    forall i, j :: 0 <= i < j < |us| ==> us[i] != us[j]
  }

  /** The predicate `a => a.email !== email` both scripts delete with (exact comparison). */
  function EmailIsNot(email: string): AccountData -> bool {
    (a: AccountData) => a.email != email
  }

  /** `accounts.filter(a => a.email !== email)` on the objects themselves. */
  function Without(us: seq<Account>, email: string): (r: seq<Account>)
    reads us
    ensures forall i :: 0 <= i < |r| ==> r[i] in us && r[i].email != email
    ensures forall i :: 0 <= i < |us| && us[i].email != email ==> us[i] in r
  {
    if us == [] then []
    else if us[0].email != email then [us[0]] + Without(us[1..], email)
    else Without(us[1..], email)
  }

  /** Filtering the objects filters their records the same way, order included. */
  lemma {:induction false} WithoutSnapshot(us: seq<Account>, email: string)
    ensures Snapshot(Without(us, email)) == Filter(Snapshot(us), EmailIsNot(email))
  {
    if us != [] {
      var p, rest := EmailIsNot(email), Without(us[1..], email);
      var s := Snapshot(us);
      WithoutSnapshot(us[1..], email);
      if us[0].email != email {
        calc {
          Snapshot(Without(us, email));
          Snapshot([us[0]] + rest);
          { assert Snapshot([us[0]] + rest) == [us[0].Data()] + Snapshot(rest); }
          [s[0]] + Filter(Snapshot(us[1..]), p);
          { assert s[1..] == Snapshot(us[1..]); }
          Filter(s, p);
        }
      } else {
        calc {
          Snapshot(Without(us, email));
          Filter(Snapshot(us[1..]), p);
          { assert s[1..] == Snapshot(us[1..]); }
          Filter(s, p);
        }
      }
    }
  }

  /** Filtering distinct objects leaves distinct objects. */
  lemma {:induction false} WithoutDistinct(us: seq<Account>, email: string)
    requires Distinct(us)
    ensures Distinct(Without(us, email))
  {
    if us != [] {
      WithoutDistinct(us[1..], email);
    }
  }

  /** After one object of the collection changed, the snapshot differs from `before` at that index only. */
  lemma SnapshotUpdate(us: seq<Account>, before: seq<AccountData>, i: nat)
    requires i < |us| && |before| == |us|
    requires forall j :: 0 <= j < |us| && j != i ==> us[j].Data() == before[j]
    ensures Snapshot(us) == before[i := us[i].Data()]
  {
  }

  /** `push` of a fresh object holding `d`. */
  method Append(us: seq<Account>, d: AccountData) returns (vs: seq<Account>)
    requires Distinct(us)
    ensures Snapshot(vs) == Snapshot(us) + [d]
    ensures Distinct(vs)
    ensures |vs| == |us| + 1 && vs[..|us|] == us && fresh(vs[|us|])
  {
    var a := new Account(d);
    vs := us + [a];
    assert Snapshot(vs) == Snapshot(us) + [d];
  }

  /** Fresh account objects for parsed records, as `JSON.parse` allocates them. */
  method Materialize(ds: seq<AccountData>) returns (us: seq<Account>)
    ensures Snapshot(us) == ds
    ensures Distinct(us)
    ensures forall i :: 0 <= i < |us| ==> fresh(us[i])
  {
    us := [];
    while |us| < |ds|
      invariant |us| <= |ds|
      invariant Snapshot(us) == ds[..|us|]
      invariant Distinct(us)
      invariant forall i :: 0 <= i < |us| ==> fresh(us[i])
    {
      var u := new Account(ds[|us|]);
      us := us + [u];
    }
  }
}
