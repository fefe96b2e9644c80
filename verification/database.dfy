/** Seeding of the three test accounts: each is inserted only when no user
    with its username exists yet. Password hashing keeps its output format
    (hex digest, a dot, hex salt); the key-derivation function, the keys it
    derives and the random salts are parameters. */
module Seeding {
  import opened Text
  import opened Schema
  import opened Storage

  // ------------------------------------------------------------ passwords

  /** What `hashPassword` returns for a derived key and a salt: the hex text
      of the key, a dot, then the hex text of the salt. */
  function StoredPassword(key: seq<byte>, salt: seq<byte>): string
  {
    Hex(key) + "." + Hex(salt)
  }

  /** `hashPassword`: the key is derived from the password and the salt's
      hex text. */
  function HashPassword(kdf: (string, string) -> seq<byte>, password: string, salt: seq<byte>): string
  {
    StoredPassword(kdf(password, Hex(salt)), salt)
  }

  /** Splits at the first dot: what comes before it and what comes after. */
  function SplitAtDot(s: string): (string, string)
  {
    if s == [] then ([], [])
    else if s[0] == '.' then ([], s[1..])
    else ([s[0]] + SplitAtDot(s[1..]).0, SplitAtDot(s[1..]).1)
  }

  lemma {:induction false} SplitAtDotJoin(a: string, b: string)
    requires forall i :: 0 <= i < |a| ==> a[i] != '.'
    ensures SplitAtDot(a + "." + b) == (a, b)
  {
    var s := a + "." + b;
    if a != [] {
      assert s[0] == a[0] && s[0] != '.';
      assert s[1..] == a[1..] + "." + b;
      SplitAtDotJoin(a[1..], b);
      assert [a[0]] + a[1..] == a;
    } else {
      assert a + "." + b == "." + b;
    }
  }

  /** A stored password splits at its only dot into the hex digest and the
      hex salt, and the salt part decodes to the salt that was drawn. */
  lemma StoredPasswordFormat(key: seq<byte>, salt: seq<byte>)
    ensures SplitAtDot(StoredPassword(key, salt)) == (Hex(key), Hex(salt))
    ensures UnHex(SplitAtDot(StoredPassword(key, salt)).1) == salt
  {
    SplitAtDotJoin(Hex(key), Hex(salt));
    HexRoundTrip(salt);
  }

  // ------------------------------------------------------------ accounts

  /** The seed accounts' plain passwords, in seeding order. */
  const SeedPasswords: seq<string> := ["admin123", "eval123", "emp123"]

  /** The keys the key-derivation function gives the seed passwords under
      the salts drawn for them. */
  function SeedKeys(kdf: (string, string) -> seq<byte>, salts: seq<seq<byte>>): (keys: seq<seq<byte>>)
    requires |salts| == 3
    ensures |keys| == 3
  {
    [kdf(SeedPasswords[0], Hex(salts[0])), kdf(SeedPasswords[1], Hex(salts[1])), kdf(SeedPasswords[2], Hex(salts[2]))]
  }

  /** The three seed accounts, in seeding order; `salts` holds the random
      salt drawn for each and `keys` the key derived for each. */
  function TestAccounts(keys: seq<seq<byte>>, salts: seq<seq<byte>>): (accounts: seq<NewUser>)
    requires |keys| == 3 && |salts| == 3
    ensures |accounts| == 3
  {
    [ NewUser("admin", StoredPassword(keys[0], salts[0]), "admin@example.com", Admin, "Admin User"),
      NewUser("evaluator", StoredPassword(keys[1], salts[1]), "evaluator@example.com", Evaluator, "Evaluator User"),
      NewUser("employee", StoredPassword(keys[2], salts[2]), "employee@example.com", Employee, "Employee User") ]
  }

  /** With the keys derived from the seed passwords, each account stores
      `hashPassword` of its own password. */
  lemma TestAccountsHashed(kdf: (string, string) -> seq<byte>, salts: seq<seq<byte>>)
    requires |salts| == 3
    ensures forall k :: 0 <= k < 3 ==>
              TestAccounts(SeedKeys(kdf, salts), salts)[k].password == HashPassword(kdf, SeedPasswords[k], salts[k])
  {
  }

  /** The seed accounts are admin, evaluator and employee, with the roles of
      those names, whatever the salts. */
  lemma TestAccountsRoles(keys: seq<seq<byte>>, salts: seq<seq<byte>>)
    requires |keys| == 3 && |salts| == 3
    ensures var accounts := TestAccounts(keys, salts);
            && accounts[0].username == "admin" && accounts[0].role == Admin
            && accounts[1].username == "evaluator" && accounts[1].role == Evaluator
            && accounts[2].username == "employee" && accounts[2].role == Employee
  {
  }

  /** Two seeding runs use the same usernames, in the same order. */
  lemma TestAccountsSameUsernames(keys1: seq<seq<byte>>, salts1: seq<seq<byte>>, keys2: seq<seq<byte>>, salts2: seq<seq<byte>>)
    requires |keys1| == 3 && |salts1| == 3 && |keys2| == 3 && |salts2| == 3
    ensures forall k :: 0 <= k < 3 ==> TestAccounts(keys1, salts1)[k].username == TestAccounts(keys2, salts2)[k].username
  {
    TestAccountsRoles(keys1, salts1);
    TestAccountsRoles(keys2, salts2);
  }

  ghost predicate DistinctUsernames(accounts: seq<NewUser>)
  {
    forall i, j :: 0 <= i < j < |accounts| ==> accounts[i].username != accounts[j].username
  }

  lemma TestAccountsDistinct(keys: seq<seq<byte>>, salts: seq<seq<byte>>)
    requires |keys| == 3 && |salts| == 3
    ensures DistinctUsernames(TestAccounts(keys, salts))
  {
    var accounts := TestAccounts(keys, salts);
    TestAccountsRoles(keys, salts);
    assert accounts[0].username != accounts[1].username;
    assert accounts[0].username != accounts[2].username;
    assert accounts[1].username != accounts[2].username;
  }

  /** The accounts whose username no user in `users` holds, in order. */
  function Missing(users: seq<User>, accounts: seq<NewUser>): (r: seq<NewUser>)
    ensures |r| <= |accounts|
  {
    if accounts == [] then []
    else Missing(users, accounts[..|accounts| - 1])
         + (if UsernameTaken(users, accounts[|accounts| - 1].username) then [] else [accounts[|accounts| - 1]])
  }

  /** The missing accounts are exactly the accounts whose username is free. */
  lemma {:induction false} MissingMembers(users: seq<User>, accounts: seq<NewUser>)
    ensures forall a :: a in Missing(users, accounts) <==> a in accounts && !UsernameTaken(users, a.username)
  {
    if accounts != [] {
      var init := accounts[..|accounts| - 1];
      MissingMembers(users, init);
      assert accounts == init + [accounts[|accounts| - 1]];
    }
  }

  /** The rows a run of inserts produces, ids counting up from `first`. */
  function StampFrom(accounts: seq<NewUser>, first: int): (r: seq<User>)
    ensures |r| == |accounts|
    ensures forall i :: 0 <= i < |r| ==> r[i] == StampUser(accounts[i], first + i)
  {
    if accounts == [] then [] else [StampUser(accounts[0], first)] + StampFrom(accounts[1..], first + 1)
  }

  lemma StampFromAppend(accounts: seq<NewUser>, a: NewUser, first: int)
    ensures StampFrom(accounts + [a], first) == StampFrom(accounts, first) + [StampUser(a, first + |accounts|)]
  {
  }

  /** After seeding, every account's username is held by some user, and an
      account whose username was free is present with its own fields. */
  lemma SeedingCovers(users: seq<User>, accounts: seq<NewUser>, first: int, a: NewUser)
    requires a in accounts
    ensures UsernameTaken(users + StampFrom(Missing(users, accounts), first), a.username)
    ensures !UsernameTaken(users, a.username) ==>
              exists u :: u in StampFrom(Missing(users, accounts), first) && UnstampUser(u) == a
  {
    var m := Missing(users, accounts);
    var added := StampFrom(m, first);
    if !UsernameTaken(users, a.username) {
      MissingMembers(users, accounts);
      assert a in m;
      var k :| 0 <= k < |m| && m[k] == a;
      assert added[k] in users + added;
      assert UnstampUser(added[k]) == a;
    } else {
      var u :| u in users && u.username == a.username;
      assert u in users + added;
    }
  }

  /** A second seeding run finds every username taken and inserts nothing. */
  lemma SeedingIsIdempotent(users: seq<User>, accounts: seq<NewUser>, first: int)
    ensures Missing(users + StampFrom(Missing(users, accounts), first), accounts) == []
  {
    var after := users + StampFrom(Missing(users, accounts), first);
    forall a | a in accounts ensures UsernameTaken(after, a.username) {
      SeedingCovers(users, accounts, first, a);
    }
    MissingEmpty(after, accounts);
  }

  /** A second run over accounts with the same usernames as the first run's
      inserts nothing. */
  lemma SeedingAgainFindsAll(users: seq<User>, a1: seq<NewUser>, a2: seq<NewUser>, first: int)
    requires |a1| == |a2| && forall k :: 0 <= k < |a1| ==> a1[k].username == a2[k].username
    ensures Missing(users + StampFrom(Missing(users, a1), first), a2) == []
  {
    var once := users + StampFrom(Missing(users, a1), first);
    forall a | a in a2 ensures UsernameTaken(once, a.username) {
      var k :| 0 <= k < |a2| && a2[k] == a;
      SeedingCovers(users, a1, first, a1[k]);
    }
    MissingEmpty(once, a2);
  }

  /** Nothing is missing when every username is taken. */
  lemma {:induction false} MissingEmpty(users: seq<User>, accounts: seq<NewUser>)
    requires forall a :: a in accounts ==> UsernameTaken(users, a.username)
    ensures Missing(users, accounts) == []
  {
    if accounts != [] {
      var init := accounts[..|accounts| - 1];
      assert forall a :: a in init ==> a in accounts;
      assert accounts[|accounts| - 1] in accounts;
      MissingEmpty(users, init);
    }
  }

  /** One more account adds itself to the missing ones exactly when its
      username is free. */
  lemma MissingStep(users: seq<User>, accounts: seq<NewUser>, i: int)
    requires 0 <= i < |accounts|
    ensures Missing(users, accounts[..i + 1])
            == Missing(users, accounts[..i]) + (if UsernameTaken(users, accounts[i].username) then [] else [accounts[i]])
  {
    assert accounts[..i + 1][..i] == accounts[..i];
  }

  /** Rows inserted for earlier accounts never hold a later account's
      username, since the accounts' usernames differ. */
  lemma AddedRowsKeepUsernameFree(users: seq<User>, accounts: seq<NewUser>, i: int, first: int)
    requires 0 <= i < |accounts| && DistinctUsernames(accounts)
    ensures UsernameTaken(users + StampFrom(Missing(users, accounts[..i]), first), accounts[i].username)
            <==> UsernameTaken(users, accounts[i].username)
  {
    var done := Missing(users, accounts[..i]);
    var added := StampFrom(done, first);
    MissingMembers(users, accounts[..i]);
    forall u | u in added ensures u.username != accounts[i].username {
      var k :| 0 <= k < |added| && added[k] == u;
      assert done[k] in accounts[..i];
      var j :| 0 <= j < i && accounts[..i][j] == done[k];
    }
  }

  /** What one turn of the seeding loop does to the users table, in terms of
      the accounts seen so far. */
  lemma SeedingStep(users0: seq<User>, accounts: seq<NewUser>, i: int, first: int)
    requires 0 <= i < |accounts| && DistinctUsernames(accounts)
    ensures users0 + StampFrom(Missing(users0, accounts[..i + 1]), first)
            == users0 + StampFrom(Missing(users0, accounts[..i]), first)
               + (if UsernameTaken(users0, accounts[i].username) then [] else [StampUser(accounts[i], first + |Missing(users0, accounts[..i])|)])
    ensures UsernameTaken(users0 + StampFrom(Missing(users0, accounts[..i]), first), accounts[i].username)
            == UsernameTaken(users0, accounts[i].username)
    ensures |Missing(users0, accounts[..i + 1])|
            == |Missing(users0, accounts[..i])| + (if UsernameTaken(users0, accounts[i].username) then 0 else 1)
  {
    AddedRowsKeepUsernameFree(users0, accounts, i, first);
    if UsernameTaken(users0, accounts[i].username) {
      SeedingStepTaken(users0, accounts, i, first);
    } else {
      SeedingStepFree(users0, accounts, i, first);
    }
  }

  lemma SeedingStepTaken(users0: seq<User>, accounts: seq<NewUser>, i: int, first: int)
    requires 0 <= i < |accounts| && UsernameTaken(users0, accounts[i].username)
    ensures Missing(users0, accounts[..i + 1]) == Missing(users0, accounts[..i])
    ensures users0 + StampFrom(Missing(users0, accounts[..i + 1]), first)
            == users0 + StampFrom(Missing(users0, accounts[..i]), first) + []
  {
    MissingStep(users0, accounts, i);
    var before := users0 + StampFrom(Missing(users0, accounts[..i]), first);
    assert before + [] == before;
  }

  lemma SeedingStepFree(users0: seq<User>, accounts: seq<NewUser>, i: int, first: int)
    requires 0 <= i < |accounts| && !UsernameTaken(users0, accounts[i].username)
    ensures Missing(users0, accounts[..i + 1]) == Missing(users0, accounts[..i]) + [accounts[i]]
    ensures users0 + StampFrom(Missing(users0, accounts[..i + 1]), first)
            == users0 + StampFrom(Missing(users0, accounts[..i]), first)
               + [StampUser(accounts[i], first + |Missing(users0, accounts[..i])|)]
  {
    MissingGrows(users0, accounts, i);
    StampedGrows(users0, accounts, i, first);
  }

  lemma StampedGrows(users0: seq<User>, accounts: seq<NewUser>, i: int, first: int)
    requires 0 <= i < |accounts|
    requires Missing(users0, accounts[..i + 1]) == Missing(users0, accounts[..i]) + [accounts[i]]
    ensures users0 + StampFrom(Missing(users0, accounts[..i + 1]), first)
            == users0 + StampFrom(Missing(users0, accounts[..i]), first)
               + [StampUser(accounts[i], first + |Missing(users0, accounts[..i])|)]
  {
    var done := Missing(users0, accounts[..i]);
    var row := StampUser(accounts[i], first + |done|);
    StampFromAppend(done, accounts[i], first);
    ConcatAssoc(users0, StampFrom(done, first), [row]);
  }

  lemma ConcatAssoc<T>(a: seq<T>, b: seq<T>, c: seq<T>)
    ensures a + (b + c) == a + b + c
  {
  }

  lemma MissingGrows(users0: seq<User>, accounts: seq<NewUser>, i: int)
    requires 0 <= i < |accounts| && !UsernameTaken(users0, accounts[i].username)
    ensures Missing(users0, accounts[..i + 1]) == Missing(users0, accounts[..i]) + [accounts[i]]
  {
    MissingStep(users0, accounts, i);
  }

  // ------------------------------------------------------------ the loop

  /** `initializeTestAccounts`: for each seed account in turn, look the
      username up and insert the account only if nobody holds it. The users
      table ends as it was plus the missing accounts, in seeding order, under
      fresh consecutive ids. The three `hashPassword` calls are done by the
      caller: `keys` are the derived keys (`SeedKeys`) and `salts` the salts
      drawn. */
  method InitializeTestAccounts(store: Store, keys: seq<seq<byte>>, salts: seq<seq<byte>>)
    requires store.Valid() && |keys| == 3 && |salts| == 3
    modifies store
    ensures store.Valid()
    ensures store.users == old(store.users)
                           + StampFrom(Missing(old(store.users), TestAccounts(keys, salts)), old(store.lastUserId) + 1)
    ensures store.lastUserId == old(store.lastUserId) + |Missing(old(store.users), TestAccounts(keys, salts))|
    ensures store.evaluations == old(store.evaluations) && store.assignments == old(store.assignments)
    ensures store.lastEvaluationId == old(store.lastEvaluationId) && store.lastAssignmentId == old(store.lastAssignmentId)
  {
    TestAccountsDistinct(keys, salts);
    InsertMissing(store, TestAccounts(keys, salts));
  }

  /** The loop of `initializeTestAccounts`, over any accounts with distinct
      usernames. */
  method InsertMissing(store: Store, accounts: seq<NewUser>)
    requires store.Valid() && DistinctUsernames(accounts)
    modifies store
    ensures store.Valid()
    ensures store.users == old(store.users) + StampFrom(Missing(old(store.users), accounts), old(store.lastUserId) + 1)
    ensures store.lastUserId == old(store.lastUserId) + |Missing(old(store.users), accounts)|
    ensures store.evaluations == old(store.evaluations) && store.assignments == old(store.assignments)
    ensures store.lastEvaluationId == old(store.lastEvaluationId) && store.lastAssignmentId == old(store.lastAssignmentId)
  {
    ghost var users0, first := store.users, store.lastUserId + 1;
    ghost var evaluations0, assignments0 := store.evaluations, store.assignments;
    ghost var lastEvaluationId0, lastAssignmentId0 := store.lastEvaluationId, store.lastAssignmentId;
    for i := 0 to |accounts|
      invariant store.Valid()
      invariant store.users == users0 + StampFrom(Missing(users0, accounts[..i]), first)
      invariant store.lastUserId == first - 1 + |Missing(users0, accounts[..i])|
      invariant store.evaluations == evaluations0 && store.assignments == assignments0
      invariant store.lastEvaluationId == lastEvaluationId0 && store.lastAssignmentId == lastAssignmentId0
    {
      SeedNext(store, users0, accounts, i, first);
    }
    assert accounts[..|accounts|] == accounts;
  }

  /** The body of the seeding loop: from the table after `i` accounts to the
      table after `i + 1`. */
  method SeedNext(store: Store, ghost users0: seq<User>, accounts: seq<NewUser>, i: int, ghost first: int)
    requires store.Valid() && DistinctUsernames(accounts) && 0 <= i < |accounts|
    requires store.users == users0 + StampFrom(Missing(users0, accounts[..i]), first)
    requires store.lastUserId == first - 1 + |Missing(users0, accounts[..i])|
    modifies store
    ensures store.Valid()
    ensures store.users == users0 + StampFrom(Missing(users0, accounts[..i + 1]), first)
    ensures store.lastUserId == first - 1 + |Missing(users0, accounts[..i + 1])|
    ensures store.evaluations == old(store.evaluations) && store.assignments == old(store.assignments)
    ensures store.lastEvaluationId == old(store.lastEvaluationId) && store.lastAssignmentId == old(store.lastAssignmentId)
  {
    SeedingStep(users0, accounts, i, first);
    InsertIfAbsent(store, accounts[i]);
  }

  /** One step of the seeding loop: look the username up, insert the account
      when nobody holds it. */
  method InsertIfAbsent(store: Store, a: NewUser)
    requires store.Valid()
    modifies store
    ensures store.Valid()
    ensures store.users == old(store.users)
                           + (if UsernameTaken(old(store.users), a.username) then [] else [StampUser(a, old(store.lastUserId) + 1)])
    ensures store.lastUserId == old(store.lastUserId) + (if UsernameTaken(old(store.users), a.username) then 0 else 1)
    ensures store.evaluations == old(store.evaluations) && store.assignments == old(store.assignments)
    ensures store.lastEvaluationId == old(store.lastEvaluationId) && store.lastAssignmentId == old(store.lastAssignmentId)
  {
    var existing := store.GetUserByUsername(a.username);
    if existing.None? {
      var _ := store.CreateUser(a);
    }
  }

  /** Seeding twice leaves the users table as seeding once did, whatever
      salts and keys the second run uses. */
  method InitializeTwice(store: Store, keys1: seq<seq<byte>>, salts1: seq<seq<byte>>,
                         keys2: seq<seq<byte>>, salts2: seq<seq<byte>>)
    requires store.Valid() && |keys1| == 3 && |salts1| == 3 && |keys2| == 3 && |salts2| == 3
    modifies store
    ensures store.Valid()
    ensures store.users == old(store.users)
                           + StampFrom(Missing(old(store.users), TestAccounts(keys1, salts1)), old(store.lastUserId) + 1)
    ensures store.lastUserId == old(store.lastUserId) + (|store.users| - |old(store.users)|)
  {
    InitializeTestAccounts(store, keys1, salts1);
    TestAccountsSameUsernames(keys1, salts1, keys2, salts2);
    SeedingAgainFindsAll(old(store.users), TestAccounts(keys1, salts1), TestAccounts(keys2, salts2), old(store.lastUserId) + 1);
    InitializeTestAccounts(store, keys2, salts2);
  }
}
