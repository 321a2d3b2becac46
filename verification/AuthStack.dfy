/** The ordered stack of authentication modules. */
module AuthStack {
  import opened Accounts
  import opened Hash
  import opened Wrappers

  datatype ModuleResult = Success | Failure | Skip
  datatype Control = Required | Requisite | Sufficient | Optional
  datatype Outcome = Authenticated | Denied
  datatype Request = Request(username: string, password: Bytes)
  datatype Entry = Entry(control: Control, check: (Request, Store) -> ModuleResult)

  /** What one run of the stack sees: each entry's control and its module's result. */
  datatype Verdict = Verdict(control: Control, result: ModuleResult)

  function Verdicts(entries: seq<Entry>, q: Request, s: Store): (v: seq<Verdict>)
    ensures |v| == |entries|
    ensures forall i :: 0 <= i < |v| ==> v[i] == Verdict(entries[i].control, entries[i].check(q, s))
  {
    seq(|entries|, i requires 0 <= i < |entries| => Verdict(entries[i].control, entries[i].check(q, s)))
  }

  predicate IsBinding(v: Verdict) { v.control == Required || v.control == Requisite }
  predicate BindingFailure(v: Verdict) { IsBinding(v) && v.result == Failure }
  predicate BindingSuccess(v: Verdict) { IsBinding(v) && v.result == Success }
  predicate Suffices(v: Verdict) { v.control == Sufficient && v.result == Success }

  predicate NoFailure(vs: seq<Verdict>) { forall i :: 0 <= i < |vs| ==> !BindingFailure(vs[i]) }
  predicate SomeSuccess(vs: seq<Verdict>) { exists i :: 0 <= i < |vs| && BindingSuccess(vs[i]) }
  predicate SufficesAt(vs: seq<Verdict>, i: nat) { i < |vs| && Suffices(vs[i]) && NoFailure(vs[..i]) }

  /** The declarative rule: a sufficient success with no earlier binding failure, or some binding
      success and no binding failure at all. */
  ghost predicate Passes(vs: seq<Verdict>) {
    (exists i: nat :: SufficesAt(vs, i)) || (SomeSuccess(vs) && NoFailure(vs))
  }

  /** The early-exit loop over two flags computes the declarative rule. */
  method Authenticate(entries: seq<Entry>, q: Request, s: Store) returns (r: Outcome)
    ensures r == Authenticated <==> Passes(Verdicts(entries, q, s))
  {
    ghost var vs := Verdicts(entries, q, s);
    var bindingFailed, bindingSuccess := false, false;
    for i := 0 to |entries|
      invariant bindingFailed <==> !NoFailure(vs[..i])
      invariant bindingSuccess <==> SomeSuccess(vs[..i])
      invariant forall k: nat :: k < i ==> !SufficesAt(vs, k)
      invariant forall k :: 0 <= k < i ==> !(vs[k].control == Requisite && vs[k].result == Failure)
    {
      Extend(vs, i);
      var result := entries[i].check(q, s);
      match entries[i].control {
        case Required =>
          if result == Success { bindingSuccess := true; } else if result == Failure { bindingFailed := true; }
        case Requisite =>
          if result == Success { bindingSuccess := true; }
          if result == Failure {
            FailureDenies(vs, i);
            return Denied;
          }
        case Sufficient =>
          if result == Success && !bindingFailed {
            assert SufficesAt(vs, i);
            return Authenticated;
          }
        case Optional =>
      }
    }
    assert vs[..|entries|] == vs;
    r := if bindingSuccess && !bindingFailed then Authenticated else Denied;
  }

  lemma Extend(vs: seq<Verdict>, i: nat)
    requires i < |vs|
    ensures NoFailure(vs[..i + 1]) <==> NoFailure(vs[..i]) && !BindingFailure(vs[i])
    ensures SomeSuccess(vs[..i + 1]) <==> SomeSuccess(vs[..i]) || BindingSuccess(vs[i])
  {
    var longer, shorter := vs[..i + 1], vs[..i];
    assert longer == shorter + [vs[i]];
    if NoFailure(longer) {
      forall k | 0 <= k < i ensures !BindingFailure(shorter[k]) { assert !BindingFailure(longer[k]); }
    }
    if SomeSuccess(shorter) {
      var k :| 0 <= k < |shorter| && BindingSuccess(shorter[k]);
      assert BindingSuccess(longer[k]);
    }
    if BindingSuccess(vs[i]) { assert BindingSuccess(longer[i]); }
  }

  /** A binding failure with no sufficient success before it denies, whatever follows. */
  lemma FailureDenies(vs: seq<Verdict>, i: nat)
    requires i < |vs| && BindingFailure(vs[i]) && forall k: nat :: k < i ==> !SufficesAt(vs, k)
    ensures !Passes(vs)
  {
    forall k: nat ensures !SufficesAt(vs, k) {
      if i < k < |vs| { assert BindingFailure(vs[..k][i]); }
    }
  }

  function Rank(r: ModuleResult): nat {
    match r case Failure => 0 case Skip => 1 case Success => 2
  }

  ghost predicate Raised(vs: seq<Verdict>, ws: seq<Verdict>) {
    |vs| == |ws| &&
    forall i :: 0 <= i < |vs| ==> vs[i].control == ws[i].control && Rank(vs[i].result) <= Rank(ws[i].result)
  }

  /** Raising module results never turns a pass into a denial. */
  lemma RaisingKeepsPass(vs: seq<Verdict>, ws: seq<Verdict>)
    requires Raised(vs, ws) && Passes(vs)
    ensures Passes(ws)
  {
    if i: nat :| SufficesAt(vs, i) {
      RaisedNoFailure(vs, ws, i);
      assert SufficesAt(ws, i);
    } else {
      var k :| 0 <= k < |vs| && BindingSuccess(vs[k]);
      assert BindingSuccess(ws[k]);
      assert vs[..|vs|] == vs && ws[..|ws|] == ws;
      RaisedNoFailure(vs, ws, |vs|);
    }
  }

  lemma RaisedNoFailure(vs: seq<Verdict>, ws: seq<Verdict>, n: nat)
    requires Raised(vs, ws) && n <= |vs| && NoFailure(vs[..n])
    ensures NoFailure(ws[..n])
  {
    forall i | 0 <= i < n ensures !BindingFailure(ws[..n][i]) {
      assert !BindingFailure(vs[..n][i]);
    }
  }

  /** The password module: an unknown user fails rather than abstains. */
  function CheckPassword(h: Hasher, q: Request, s: Store): ModuleResult {
    match GetByName(s, q.username)
    case None => Failure
    case Some(u) => if Verifies(h, u.credential, q.password) then Success else Failure
  }

  /** It succeeds exactly for a known name whose credential has the hasher's scheme and the digest of
      the password under its salt; otherwise it fails, and never skips. */
  lemma CheckPasswordIff(h: Hasher, q: Request, s: Store)
    ensures CheckPassword(h, q, s) == Success <==>
              && q.username in s.byName && s.byName[q.username] in s.byUid
              && var c := s.byUid[s.byName[q.username]].credential;
                 c.scheme == h.scheme && h.digest(q.password, c.salt) == c.hash
    ensures CheckPassword(h, q, s) != Success ==> CheckPassword(h, q, s) == Failure
  {
  }

  function PasswordModule(h: Hasher): (Request, Store) -> ModuleResult {
    (q, s) => CheckPassword(h, q, s)
  }
}
