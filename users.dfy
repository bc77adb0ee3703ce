/** The validations of the `User` model (app/models/user.rb): `name` and
    `email` must be present, names are unique comparing case, emails are
    unique ignoring case. The `users` table is a sequence of stored users;
    `Save` is `save` on a new record, inserting the user only when it
    passes validation. */
module Users {
  import opened Wrappers
  import opened Text

  /** A user's validated attributes. Both columns are `NOT NULL` with the
      default `""`, so they are plain strings. */
  datatype User = User(name: string, email: string)

  /** The errors `valid?` can record. */
  datatype UserError = NameBlank | NameTaken | EmailBlank | EmailTaken

  /** `presence: true` on a string column. */
  predicate Blank(s: string) {
    IsBlank(Some(s))
  }

  /** `uniqueness: { case_sensitive: true }`: some stored user has exactly
      this name. */
  predicate NameTakenIn(name: string, table: seq<User>) {
    exists i :: 0 <= i < |table| && table[i].name == name
  }

  /** `uniqueness: { case_sensitive: false }`: some stored user has this
      email up to case. */
  predicate EmailTakenIn(email: string, table: seq<User>) {
    exists i :: 0 <= i < |table| && Fold(table[i].email) == Fold(email)
  }

  /** The errors of a new user against the stored ones. Each validation
      runs on its own, so a blank value that is also taken has both
      errors. */
  function Errors(u: User, table: seq<User>): (r: set<UserError>)
    ensures NameBlank in r <==> Blank(u.name)
    ensures NameTaken in r <==> NameTakenIn(u.name, table)
    ensures EmailBlank in r <==> Blank(u.email)
    ensures EmailTaken in r <==> EmailTakenIn(u.email, table)
    ensures r <= {NameBlank, NameTaken, EmailBlank, EmailTaken}
  {
    (if Blank(u.email) then {EmailBlank} else {}) +
    (if EmailTakenIn(u.email, table) then {EmailTaken} else {}) +
    (if Blank(u.name) then {NameBlank} else {}) +
    (if NameTakenIn(u.name, table) then {NameTaken} else {})
  }

  /** A user is valid exactly when both values are present and neither is
      taken. */
  lemma ValidIff(u: User, table: seq<User>)
    ensures Errors(u, table) == {} <==>
            !Blank(u.name) && !NameTakenIn(u.name, table) &&
            !Blank(u.email) && !EmailTakenIn(u.email, table)
  {
    var r := Errors(u, table);
    if r == {} {
      assert NameBlank !in r && NameTaken !in r && EmailBlank !in r && EmailTaken !in r;
    }
  }

  /** `save` on a new user: inserted when valid, otherwise rejected with its
      errors and the table left as it was. */
  function Save(table: seq<User>, u: User): (r: Result<seq<User>, set<UserError>>)
    ensures r.Success? <==> Errors(u, table) == {}
    ensures r.Success? ==> r.value == table + [u]
    ensures r.Failure? ==> r.error == Errors(u, table)
  {
    var errs := Errors(u, table);
    if errs == {} then Success(table + [u]) else Failure(errs)
  }

  /** What the validations keep true of the stored users when every insert
      goes through them: every name and email is present, no two names are
      equal, and no two emails are equal up to case. */
  predicate Consistent(table: seq<User>) {
    (forall i :: 0 <= i < |table| ==> !Blank(table[i].name) && !Blank(table[i].email)) &&
    (forall i, j :: 0 <= i < j < |table| ==> table[i].name != table[j].name) &&
    (forall i, j :: 0 <= i < j < |table| ==> Fold(table[i].email) != Fold(table[j].email))
  }

  /** A successful save keeps the table consistent. */
  lemma SaveKeepsConsistent(table: seq<User>, u: User)
    requires Consistent(table)
    requires Save(table, u).Success?
    ensures Consistent(Save(table, u).value)
  {
    ValidIff(u, table);
    var t := table + [u];
    assert t == Save(table, u).value;
    forall i, j | 0 <= i < j < |t|
      ensures t[i].name != t[j].name && Fold(t[i].email) != Fold(t[j].email)
    {
      if j == |table| {
        assert t[i] == table[i];
        assert !(table[i].name == u.name);
        assert !(Fold(table[i].email) == Fold(u.email));
      } else {
        assert t[i] == table[i] && t[j] == table[j];
      }
    }
  }

  /** The column default `""` is rejected for both attributes. */
  lemma DefaultsRejected(table: seq<User>)
    ensures NameBlank in Errors(User("", ""), table)
    ensures EmailBlank in Errors(User("", ""), table)
  {
  }

  /** Names compare case: next to "Bob", "bob" is free but "Bob" is taken. */
  lemma NameCaseSensitive()
    ensures NameTaken !in Errors(User("bob", "b@x.com"), [User("Bob", "a@x.com")])
    ensures NameTaken in Errors(User("Bob", "b@x.com"), [User("Bob", "a@x.com")])
  {
    assert "bob"[0] != "Bob"[0];
    assert [User("Bob", "a@x.com")][0].name == "Bob";
  }

  /** Emails ignore case: a stored "A@x.com" rejects "a@X.com". */
  lemma EmailCaseInsensitive()
    ensures EmailTaken in Errors(User("b", "a@X.com"), [User("a", "A@x.com")])
  {
    var stored := "A@x.com";
    var given := "a@X.com";
    assert Fold(stored) == Fold(given) by {
      assert |Fold(stored)| == |Fold(given)| == 7;
      forall i | 0 <= i < 7 ensures Fold(stored)[i] == Fold(given)[i] {
        assert Lower(stored[i]) == Lower(given[i]);
      }
    }
    assert [User("a", stored)][0].email == stored;
  }

  // ---------------------------------------------------------------------
  // Factory users

  /** The `n`th user of the `:user` factory. */
  function FactoryUser(n: nat): User {
    User("name_" + NatToDec(n), "user_" + NatToDec(n) + "@example.com")
  }

  /** The first `k` factory users, in creation order. */
  function FactoryTable(k: nat): (t: seq<User>)
    ensures |t| == k && forall i :: 0 <= i < k ==> t[i] == FactoryUser(i + 1)
  {
    seq(k, i requires 0 <= i < k => FactoryUser(i + 1))
  }

  lemma NatToDecInjective(n: nat, m: nat)
    requires NatToDec(n) == NatToDec(m)
    ensures n == m
  {
  }

  /** A factory email has no upper-case letter, so folding leaves it as it
      is. */
  lemma FactoryEmailFolded(n: nat)
    ensures Fold(FactoryUser(n).email) == FactoryUser(n).email
  {
    var d := NatToDec(n);
    var e := "user_" + d + "@example.com";
    assert NoUpper("user_") && NoUpper("@example.com");
    forall i | 0 <= i < |e| ensures !('A' <= e[i] <= 'Z') {
      if i < 5 {
        assert e[i] == "user_"[i];
      } else if i < 5 + |d| {
        assert e[i] == d[i - 5];
        assert IsDigit(d[i - 5]);
      } else {
        assert e[i] == "@example.com"[i - 5 - |d|];
      }
    }
    FoldNoUpper(e);
  }

  /** A factory user has a present name and email. */
  lemma FactoryUserPresent(n: nat)
    ensures !Blank(FactoryUser(n).name) && !Blank(FactoryUser(n).email)
  {
    assert FactoryUser(n).name[0] == 'n';
    assert FactoryUser(n).email[0] == 'u';
  }

  /** Two different sequence numbers give different names and emails that
      differ even up to case. */
  lemma FactoryUsersDiffer(n: nat, m: nat)
    requires n != m
    ensures FactoryUser(n).name != FactoryUser(m).name
    ensures Fold(FactoryUser(n).email) != Fold(FactoryUser(m).email)
  {
    var dn, dm := NatToDec(n), NatToDec(m);
    if "name_" + dn == "name_" + dm {
      ConcatCancel("name_", dn, "name_", dm);
      NatToDecInjective(n, m);
    }
    FactoryEmailFolded(n);
    FactoryEmailFolded(m);
    if "user_" + dn + "@example.com" == "user_" + dm + "@example.com" {
      ConcatCancel("user_" + dn, "@example.com", "user_" + dm, "@example.com");
      ConcatCancel("user_", dn, "user_", dm);
      NatToDecInjective(n, m);
    }
  }

  /** The factory users so far form a consistent table. */
  lemma FactoryTableConsistent(k: nat)
    ensures Consistent(FactoryTable(k))
  {
    var t := FactoryTable(k);
    forall i | 0 <= i < k ensures !Blank(t[i].name) && !Blank(t[i].email) {
      FactoryUserPresent(i + 1);
    }
    forall i, j | 0 <= i < j < k
      ensures t[i].name != t[j].name && Fold(t[i].email) != Fold(t[j].email)
    {
      FactoryPairDiffers(k, i, j);
    }
  }

  lemma FactoryPairDiffers(k: nat, i: nat, j: nat)
    requires i < j < k
    ensures FactoryTable(k)[i].name != FactoryTable(k)[j].name
    ensures Fold(FactoryTable(k)[i].email) != Fold(FactoryTable(k)[j].email)
  {
    FactoryUsersDiffer(i + 1, j + 1);
  }

  /** The next factory user saves onto the ones created before it. */
  lemma FactoryNextSaves(k: nat)
    ensures Save(FactoryTable(k), FactoryUser(k + 1)).Success?
  {
    var t := FactoryTable(k);
    var u := FactoryUser(k + 1);
    FactoryUserPresent(k + 1);
    forall i | 0 <= i < k ensures t[i].name != u.name && Fold(t[i].email) != Fold(u.email) {
      FactoryBeforeDiffers(k, i);
    }
    ValidIff(u, t);
  }

  lemma FactoryBeforeDiffers(k: nat, i: nat)
    requires i < k
    ensures FactoryTable(k)[i].name != FactoryUser(k + 1).name
    ensures Fold(FactoryTable(k)[i].email) != Fold(FactoryUser(k + 1).email)
  {
    FactoryUsersDiffer(i + 1, k + 1);
  }
}
