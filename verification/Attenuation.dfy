/** Macaroons-style attenuation: deriving scopes that can only be smaller. */
module Attenuation {
  import opened Scope
  import opened Wrappers

  datatype AttenuationError = WindowInverted | InvariantBroken | NotASubset | ParentIdMismatch | ScopeNotSubset

  /** The window after one caveat: time caveats narrow it, the others leave it. */
  function Narrow(w: Window, c: Caveat): Window {
    match c
    case ExpiresAt(t) => if t < w.notAfter then w.(notAfter := t) else w
    case NotBefore(t) => if t > w.notBefore then w.(notBefore := t) else w
    case _ => w
  }

  function Recorded(caveats: seq<Caveat>, c: Caveat): seq<Caveat> {
    if c in caveats then caveats else caveats + [c]
  }

  function ApplyCaveat(s: Scope, c: Caveat): Result<Scope, AttenuationError> {
    var w := Narrow(s.window, c);
    if w.notBefore > w.notAfter then Err(WindowInverted)
    else
      var child := s.(window := w, caveats := Recorded(s.caveats, c));
      if !ScopeIsSubset(child, s) then Err(InvariantBroken) else Ok(child)
  }

  function Fold(s: Scope, cs: seq<Caveat>): Result<Scope, AttenuationError> {
    if cs == [] then Ok(s)
    else
      match Fold(s, cs[..|cs| - 1])
      case Err(e) => Err(e)
      case Ok(mid) => ApplyCaveat(mid, cs[|cs| - 1])
  }

  /** `apply_caveats`: the loop over a current scope, stopping at the first error. */
  method ApplyCaveats(s: Scope, cs: seq<Caveat>) returns (r: Result<Scope, AttenuationError>)
    ensures r == Fold(s, cs)
  {
    hide ApplyCaveat;
    var current := s;
    for i := 0 to |cs|
      invariant Fold(s, cs[..i]) == Ok(current)
    {
      assert cs[..i + 1][..i] == cs[..i];
      var next := ApplyCaveat(current, cs[i]);
      if next.Err? {
        ErrorStays(s, cs, i + 1);
        return next;
      }
      current := next.value;
    }
    assert cs[..|cs|] == cs;
    r := Ok(current);
  }

  lemma {:induction false} ErrorStays(s: Scope, cs: seq<Caveat>, i: nat)
    requires i <= |cs| && Fold(s, cs[..i]).Err?
    ensures Fold(s, cs) == Fold(s, cs[..i])
  {
    hide ApplyCaveat;
    if i < |cs| {
      assert cs[..|cs| - 1][..i] == cs[..i];
      ErrorStays(s, cs[..|cs| - 1], i);
    } else {
      assert cs[..i] == cs;
    }
  }

  // --- The window, declaratively ------------------------------------------------------

  /** `lo` is the latest of `from` and all not-before times in `cs`. */
  ghost predicate IsLatest(lo: nat, from: nat, cs: seq<Caveat>) {
    && from <= lo && (forall c :: c in cs && c.NotBefore? ==> c.t <= lo)
    && (lo == from || NotBefore(lo) in cs)
  }

  /** `hi` is the earliest of `until` and all expiry times in `cs`. */
  ghost predicate IsEarliest(hi: nat, until: nat, cs: seq<Caveat>) {
    && hi <= until && (forall c :: c in cs && c.ExpiresAt? ==> hi <= c.t)
    && (hi == until || ExpiresAt(hi) in cs)
  }

  /** The parent window cut down by every time caveat. */
  ghost predicate IsIntersection(w: Window, parent: Window, cs: seq<Caveat>) {
    IsLatest(w.notBefore, parent.notBefore, cs) && IsEarliest(w.notAfter, parent.notAfter, cs)
  }

  function NarrowAll(w: Window, cs: seq<Caveat>): Window {
    if cs == [] then w else Narrow(NarrowAll(w, cs[..|cs| - 1]), cs[|cs| - 1])
  }

  lemma {:induction false} NarrowAllIsIntersection(w: Window, cs: seq<Caveat>)
    ensures IsIntersection(NarrowAll(w, cs), w, cs)
  {
    if cs != [] {
      var n := |cs| - 1;
      NarrowAllIsIntersection(w, cs[..n]);
      assert cs == cs[..n] + [cs[n]];
      assert forall c :: c in cs <==> c in cs[..n] || c == cs[n];
    }
  }

  lemma IntersectionUnique(w: Window, w': Window, parent: Window, cs: seq<Caveat>)
    requires IsIntersection(w, parent, cs) && IsIntersection(w', parent, cs)
    ensures w == w'
  {
  }

  lemma {:induction false} NarrowsOnly(w: Window, cs: seq<Caveat>, k: nat)
    requires k <= |cs|
    ensures WindowIsSubset(NarrowAll(w, cs), NarrowAll(w, cs[..k]))
  {
    if k < |cs| {
      assert cs[..|cs| - 1][..k] == cs[..k];
      NarrowsOnly(w, cs[..|cs| - 1], k);
    } else {
      assert cs[..k] == cs;
    }
  }

  function RecordAll(caveats: seq<Caveat>, cs: seq<Caveat>): seq<Caveat> {
    if cs == [] then caveats else Recorded(RecordAll(caveats, cs[..|cs| - 1]), cs[|cs| - 1])
  }

  lemma {:induction false} RecordAllKeeps(caveats: seq<Caveat>, cs: seq<Caveat>)
    ensures caveats <= RecordAll(caveats, cs)
    ensures forall c :: c in RecordAll(caveats, cs) <==> c in caveats || c in cs
  {
    if cs != [] {
      var n := |cs| - 1;
      RecordAllKeeps(caveats, cs[..n]);
      assert cs == cs[..n] + [cs[n]];
    }
  }

  /** The defensive check fails exactly for a network resource without a port. */
  predicate SelfComparable(r: Resource) { !(r.Network? && SplitPort(r.endpoint).None?) }

  lemma ApplyCaveatIs(s: Scope, c: Caveat)
    ensures var w := Narrow(s.window, c);
            ApplyCaveat(s, c) ==
              if w.notBefore > w.notAfter then Err(WindowInverted)
              else if !SelfComparable(s.resource) then Err(InvariantBroken)
              else Ok(s.(window := w, caveats := Recorded(s.caveats, c)))
  {
    ResourceReflexiveIff(s.resource);
    var child := s.(window := Narrow(s.window, c), caveats := Recorded(s.caveats, c));
    hide ResourceIsSubset;
    assert WindowIsSubset(child.window, s.window);
    assert forall i :: 0 <= i < |s.caveats| ==> s.caveats[i] in child.caveats;
  }

  /** The recorded caveats never repeat one, and earlier caveats are recorded earlier. */
  lemma {:induction false} RecordedInOrder(caveats: seq<Caveat>, cs: seq<Caveat>, k: nat)
    requires k <= |cs|
    ensures RecordAll(caveats, cs[..k]) <= RecordAll(caveats, cs)
    ensures NewlyDistinct(|caveats|, RecordAll(caveats, cs))
  {
    if cs == [] {
      assert cs[..k] == cs;
    } else {
      var n := |cs| - 1;
      RecordedInOrder(caveats, cs[..n], if k <= n then k else n);
      RecordAllKeeps(caveats, cs[..n]);
      if k <= n {
        assert cs[..n][..k] == cs[..k];
      } else {
        assert cs[..k] == cs;
      }
    }
  }

  /** From position `n` on, no element of `l` occurs earlier. */
  ghost predicate NewlyDistinct(n: nat, l: seq<Caveat>) {
    forall i, j :: 0 <= i < j < |l| && n <= j ==> l[i] != l[j]
  }

  predicate Inverted(w: Window) { w.notBefore > w.notAfter }

  /** A nonempty sequence succeeds exactly when the resource is self-comparable and the parent
      window cut down by all time caveats is not inverted. The child is then the parent with that
      window and the caveats recorded. */
  lemma {:induction false} FoldIs(s: Scope, cs: seq<Caveat>)
    requires cs != []
    ensures Fold(s, cs).Ok? <==> SelfComparable(s.resource) && !Inverted(NarrowAll(s.window, cs))
    ensures Fold(s, cs).Ok? ==>
              Fold(s, cs).value == s.(window := NarrowAll(s.window, cs), caveats := RecordAll(s.caveats, cs))
    ensures SelfComparable(s.resource) && Fold(s, cs).Err? ==> Fold(s, cs).error == WindowInverted
  {
    var n := |cs| - 1;
    NarrowsOnly(s.window, cs, n);
    hide ApplyCaveat, Narrow, Recorded;
    if n > 0 { FoldIs(s, cs[..n]); }
    var mid := s.(window := NarrowAll(s.window, cs[..n]), caveats := RecordAll(s.caveats, cs[..n]));
    ApplyCaveatIs(mid, cs[n]);
  }

  /** The same theorem in the caller's terms: `w` is the intersection of the parent window with all
      time caveats, whatever their order. */
  lemma AttenuationOutcome(s: Scope, cs: seq<Caveat>, w: Window)
    requires cs != [] && IsIntersection(w, s.window, cs)
    ensures Fold(s, cs).Ok? <==> SelfComparable(s.resource) && !Inverted(w)
    ensures Fold(s, cs).Ok? ==>
              (var child := Fold(s, cs).value;
               && child.window == w && child.action == s.action && child.resource == s.resource
               && (forall c :: c in child.caveats <==> c in s.caveats || c in cs)
               && s.caveats <= child.caveats && NewlyDistinct(|s.caveats|, child.caveats)
               && ScopeIsSubset(child, s))
    ensures SelfComparable(s.resource) && Fold(s, cs).Err? ==> Fold(s, cs).error == WindowInverted
  {
    FoldIs(s, cs);
    NarrowAllIsIntersection(s.window, cs);
    IntersectionUnique(w, NarrowAll(s.window, cs), s.window, cs);
    RecordAllKeeps(s.caveats, cs);
    RecordedInOrder(s.caveats, cs, 0);
    ResourceReflexiveIff(s.resource);
    hide ResourceIsSubset, Fold, NarrowAll, RecordAll;
    assert WindowIsSubset(w, s.window);
  }

  lemma EmptyTogether(cs: seq<Caveat>, ds: seq<Caveat>)
    requires forall c :: c in cs <==> c in ds
    ensures cs == [] <==> ds == []
  {
    if cs != [] { assert cs[0] in ds; }
    if ds != [] { assert ds[0] in cs; }
  }

  /** Two sequences of the same caveats, in any order and with any repetition, have the same
      outcome up to the order of the recorded list. */
  lemma OrderDoesNotMatter(s: Scope, cs: seq<Caveat>, ds: seq<Caveat>)
    requires forall c :: c in cs <==> c in ds
    ensures Fold(s, cs).Ok? <==> Fold(s, ds).Ok?
    ensures Fold(s, cs).Ok? ==> Fold(s, cs).value.window == Fold(s, ds).value.window
    ensures Fold(s, cs).Ok? ==>
              forall c :: c in Fold(s, cs).value.caveats <==> c in Fold(s, ds).value.caveats
  {
    var w := NarrowAll(s.window, cs);
    NarrowAllIsIntersection(s.window, cs);
    assert IsIntersection(w, s.window, ds);
    EmptyTogether(cs, ds);
    if cs != [] {
      hide Fold, NarrowAll, IsIntersection;
      AttenuationOutcome(s, cs, w);
      AttenuationOutcome(s, ds, w);
    }
  }

  /** The defensive error is reachable: exactly when the resource is a network pattern without a
      port and the first caveat does not leave the window inverted. */
  lemma DefensiveErrorIff(s: Scope, cs: seq<Caveat>)
    ensures Fold(s, cs) == Err(InvariantBroken) <==>
              cs != [] && !SelfComparable(s.resource) && !Inverted(Narrow(s.window, cs[0]))
    ensures Fold(s, cs) != Err(ScopeNotSubset)
  {
    if cs != [] {
      FoldIs(s, cs);
      ApplyCaveatIs(s, cs[0]);
      hide ApplyCaveat;
      assert cs[..1][..0] == [];
      assert Fold(s, cs[..1]) == ApplyCaveat(s, cs[0]);
      if !SelfComparable(s.resource) { ErrorStays(s, cs, 1); }
    }
  }

  /** One such input: any caveat on a host name without a port. */
  lemma DefensiveErrorReached()
    ensures Fold(Scope(Connect, Network("h"), Window(0, 1), []), [BoundToNode(0)]) == Err(InvariantBroken)
  {
    var s := Scope(Connect, Network("h"), Window(0, 1), []);
    assert SplitPort("h").None? by { assert "h"[..0] == ""; }
    DefensiveErrorIff(s, [BoundToNode(0)]);
  }

  // --- Resources, tokens and chains ---------------------------------------------------------

  function RestrictResource(s: Scope, r: Resource): Result<Scope, AttenuationError> {
    if !ResourceIsSubset(r, s.resource) then Err(NotASubset) else Ok(s.(resource := r))
  }

  /** Restriction succeeds exactly on a contained resource. The child is the parent with that
      resource: it authorises what the parent does and the resource covers, and nothing more. */
  lemma RestrictIsSound(s: Scope, r: Resource)
    ensures RestrictResource(s, r).Ok? <==> ResourceIsSubset(r, s.resource)
    ensures RestrictResource(s, r).Err? ==> RestrictResource(s, r).error == NotASubset
    ensures RestrictResource(s, r).Ok? ==>
              (var child := RestrictResource(s, r).value;
               && child == s.(resource := r) && ScopeIsSubset(child, s)
               && forall q :: Authorises(child, q) <==> Authorises(s, q) && Covers(r, q.target))
  {
    if RestrictResource(s, r).Ok? {
      var child := RestrictResource(s, r).value;
      forall q | Authorises(child, q) ensures Authorises(s, q) { SubsetAuthorises(child, s, q); }
    }
  }

  datatype Token = Token(id: nat, parent: Option<nat>, scope: Scope)

  function VerifyChainLink(parent: Token, child: Token): Result<(), AttenuationError> {
    if child.parent != Some(parent.id) then Err(ParentIdMismatch)
    else if !ScopeIsSubset(child.scope, parent.scope) then Err(ScopeNotSubset)
    else Ok(())
  }

  /** A link holds exactly when the child names the parent's id and its scope is a subset; a wrong id
      is reported before a scope that is too large. */
  lemma LinkIff(parent: Token, child: Token)
    ensures VerifyChainLink(parent, child).Ok? <==>
              child.parent == Some(parent.id) && ScopeIsSubset(child.scope, parent.scope)
    ensures VerifyChainLink(parent, child) == Err(ParentIdMismatch) <==> child.parent != Some(parent.id)
    ensures VerifyChainLink(parent, child) == Err(ScopeNotSubset) <==>
              child.parent == Some(parent.id) && !ScopeIsSubset(child.scope, parent.scope)
  {
  }

  ghost predicate VerifiedChain(chain: seq<Token>) {
    forall i :: 0 <= i < |chain| - 1 ==> VerifyChainLink(chain[i], chain[i + 1]).Ok?
  }

  /** `attenuate`, up to the signature: the scope is folded, then checked once more. */
  function Attenuate(parent: Token, id: nat, cs: seq<Caveat>): Result<Token, AttenuationError> {
    match Fold(parent.scope, cs)
    case Err(e) => Err(e)
    case Ok(s) =>
      if !ScopeIsSubset(s, parent.scope) then Err(ScopeNotSubset) else Ok(Token(id, Some(parent.id), s))
  }

  /** Every token `attenuate` produces links to its parent; its final guard fires only when no
      caveat was given and the parent's resource is not self-comparable. */
  lemma AttenuateLinks(parent: Token, id: nat, cs: seq<Caveat>)
    ensures Attenuate(parent, id, cs).Ok? ==> VerifyChainLink(parent, Attenuate(parent, id, cs).value).Ok?
    ensures Attenuate(parent, id, cs).Ok? ==>
              && Fold(parent.scope, cs).Ok?
              && Attenuate(parent, id, cs).value == Token(id, Some(parent.id), Fold(parent.scope, cs).value)
    ensures Fold(parent.scope, cs).Err? ==> Attenuate(parent, id, cs) == Err(Fold(parent.scope, cs).error)
    ensures Attenuate(parent, id, cs) == Err(ScopeNotSubset) <==> cs == [] && !SelfComparable(parent.scope.resource)
  {
    ResourceReflexiveIff(parent.scope.resource);
    DefensiveErrorIff(parent.scope, cs);
    if cs != [] {
      NarrowAllIsIntersection(parent.scope.window, cs);
      AttenuationOutcome(parent.scope, cs, NarrowAll(parent.scope.window, cs));
    }
  }

  /** Along any chain of verified links, every later scope is a subset of every earlier one, and
      authorises nothing the earlier one does not. */
  lemma {:induction false} ChainOnlyShrinks(chain: seq<Token>, i: nat, j: nat)
    requires VerifiedChain(chain) && i < j < |chain|
    ensures ScopeIsSubset(chain[j].scope, chain[i].scope)
    ensures forall q :: Authorises(chain[j].scope, q) ==> Authorises(chain[i].scope, q)
    decreases j
  {
    assert VerifyChainLink(chain[j - 1], chain[j]).Ok?;
    hide ScopeIsSubset;
    if i < j - 1 {
      ChainOnlyShrinks(chain, i, j - 1);
      ScopeTrans(chain[j].scope, chain[j - 1].scope, chain[i].scope);
    }
    hide Authorises;
    forall q | Authorises(chain[j].scope, q) ensures Authorises(chain[i].scope, q) {
      SubsetAuthorises(chain[j].scope, chain[i].scope, q);
    }
  }
}
