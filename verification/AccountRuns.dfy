/** Runs of account creation, insertion and removal from an empty store. */
module AccountRuns {
  import opened Hash
  import opened Accounts
  import opened AuthStack
  import opened Wrappers

  datatype Op = Create(application: Application) | Insert(record: UserRecord) | Remove(uid: Uid)

  function Step(s: Store, op: Op): Store {
    match op
    case Create(a) => (match Accounts.Create(s, a) case Ok(p) => p.0 case Err(_) => s)
    case Insert(r) => (match Accounts.Insert(s, r) case Ok(s') => s' case Err(_) => s)
    case Remove(u) => Accounts.Remove(s, u)
  }

  function Run(ops: seq<Op>): Store {
    if |ops| == 0 then EMPTY else Step(Run(ops[..|ops| - 1]), ops[|ops| - 1])
  }

  /** The uid that step `i` of the run created, if it was a successful creation. */
  function Created(ops: seq<Op>, i: nat): Option<Uid>
    requires i < |ops|
  {
    match ops[i]
    case Create(a) => (match Accounts.Create(Run(ops[..i]), a) case Ok(p) => Some(p.1) case Err(_) => None)
    case _ => None
  }

  /** The account step `i` created is still there after `n` steps. */
  ghost predicate Lives(ops: seq<Op>, i: nat, n: nat) {
    && i < n <= |ops| && Created(ops, i).Some?
    && forall k :: i < k < n ==> ops[k] != Remove(Created(ops, i).value)
  }

  lemma {:induction false} IndexesInverse(ops: seq<Op>)
    ensures Inverse(Run(ops))
  {
    if |ops| > 0 {
      var s, op := Run(ops[..|ops| - 1]), ops[|ops| - 1];
      IndexesInverse(ops[..|ops| - 1]);
      match op
      case Create(a) =>
        if Accounts.Create(s, a).Ok? { InsertKeepsInverse(s, NewRecord(a, NextUid(s.byUid.Keys))); }
      case Insert(r) =>
        if Accounts.Insert(s, r).Ok? { InsertKeepsInverse(s, r); }
      case Remove(u) =>
        RemoveKeepsInverse(s, u);
    }
  }

  /** A record survives every step but its own removal. */
  lemma StepKeepsRecord(s: Store, op: Op, u: Uid)
    requires u in s.byUid && op != Remove(u)
    ensures u in Step(s, op).byUid && Step(s, op).byUid[u] == s.byUid[u]
  {
  }

  /** While it lives, a created account's record is the one its application describes. */
  lemma {:induction false} RecordStays(ops: seq<Op>, i: nat, n: nat)
    requires Lives(ops, i, n)
    ensures var u := Created(ops, i).value;
            u in Run(ops[..n]).byUid && RecordFor(ops[i].application, u, Run(ops[..n]).byUid[u])
    decreases n
  {
    hide RecordFor;
    assert ops[..n][..n - 1] == ops[..n - 1];
    if n == i + 1 {
      CreateSucceedsIff(Run(ops[..i]), ops[i].application);
    } else {
      RecordStays(ops, i, n - 1);
      StepKeepsRecord(Run(ops[..n - 1]), ops[n - 1], Created(ops, i).value);
    }
  }

  /** Every new uid is the lowest free one from 1000; a creation with a fresh valid name fails only
      when that range is full. */
  lemma CreatedIsLowestFree(ops: seq<Op>, i: nat)
    requires i < |ops| && ops[i].Create?
    ensures Created(ops, i).Some? ==> LowestFree(Run(ops[..i]).byUid.Keys, Created(ops, i).value)
    ensures Created(ops, i).None? <==>
              || !IsValidUsername(ops[i].application.username)
              || ops[i].application.username in Run(ops[..i]).byName
              || RangeFull(Run(ops[..i]).byUid.Keys)
  {
    CreateSucceedsIff(Run(ops[..i]), ops[i].application);
  }

  lemma LiveUidsDiffer(ops: seq<Op>, i: nat, j: nat, n: nat)
    requires i < j && Lives(ops, i, n) && Lives(ops, j, n)
    ensures Created(ops, i).value != Created(ops, j).value
  {
    assert Lives(ops, i, j);
    RecordStays(ops, i, j);
    CreatedIsLowestFree(ops, j);
  }

  /** Live created accounts have pairwise distinct effective salts and homes. */
  lemma LiveSaltsDistinct(ops: seq<Op>, i: nat, j: nat, n: nat)
    requires i < j && Lives(ops, i, n) && Lives(ops, j, n)
    ensures var s := Run(ops[..n]);
            var u, v := Created(ops, i).value, Created(ops, j).value;
            && u in s.byUid && v in s.byUid
            && s.byUid[u].credential.salt != s.byUid[v].credential.salt
            && s.byUid[u].home != s.byUid[v].home
  {
    var s := Run(ops[..n]);
    var u, v := Created(ops, i).value, Created(ops, j).value;
    LiveUidsDiffer(ops, i, j, n);
    RecordStays(ops, i, n);
    RecordStays(ops, j, n);
    IndexesInverse(ops[..n]);
    SaltsDiffer(ops[i].application.salt, u, s.byUid[u].credential.salt,
                ops[j].application.salt, v, s.byUid[v].credential.salt);
    HomesDiffer(s.byUid[u].username, s.byUid[v].username);
  }

  lemma HomesDiffer(m: string, n: string)
    ensures "/home/" + m == "/home/" + n ==> m == n
  {
    assert ("/home/" + m)[6..] == m && ("/home/" + n)[6..] == n;
  }

  /** While it lives, a created account passes the password check of its hasher with exactly the
      passwords whose digest under the account's salt is the stored one, its own among them. */
  lemma KeepsAuthenticating(ops: seq<Op>, i: nat, n: nat, password: Bytes)
    requires Lives(ops, i, n)
    ensures var a, s, u := ops[i].application, Run(ops[..n]), Created(ops, i).value;
            && u in s.byUid
            && (CheckPassword(a.hasher, Request(a.username, password), s) == Success <==>
                a.hasher.digest(password, s.byUid[u].credential.salt) == s.byUid[u].credential.hash)
            && CheckPassword(a.hasher, Request(a.username, a.password), Run(ops[..n])) == Success
  {
    RecordStays(ops, i, n);
    IndexesInverse(ops[..n]);
  }

  /** Hence a stack that requires the password alone lets it in. */
  lemma PasswordStackAuthenticates(ops: seq<Op>, i: nat, n: nat)
    requires Lives(ops, i, n)
    ensures var a := ops[i].application;
            Passes(Verdicts([Entry(Required, PasswordModule(a.hasher))],
                            Request(a.username, a.password), Run(ops[..n])))
  {
    var a := ops[i].application;
    KeepsAuthenticating(ops, i, n, a.password);
    var vs := Verdicts([Entry(Required, PasswordModule(a.hasher))], Request(a.username, a.password), Run(ops[..n]));
    assert vs[0] == Verdict(Required, Success);
    assert BindingSuccess(vs[0]);
  }

  /** Once removed, the name is unknown and every password fails, until the name is taken again. */
  lemma RemovedFails(ops: seq<Op>, n: nat, h: Hasher, password: Bytes)
    requires n < |ops| && ops[n].Remove? && ops[n].uid in Run(ops[..n]).byUid
    ensures var name := Run(ops[..n]).byUid[ops[n].uid].username;
            && name !in Run(ops[..n + 1]).byName
            && CheckPassword(h, Request(name, password), Run(ops[..n + 1])) == Failure
  {
    assert ops[..n + 1][..n] == ops[..n];
  }
}
