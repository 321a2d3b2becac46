/** Capability scopes and the subset order on them. */
module Scope {
  import opened Wrappers

  datatype Action = Read | Write | Append | Execute | Delete | Connect | Listen | ModelInfer | ModelLoad | AgentSpawn
                  | AgentSend | IpcSend | IpcRecv | MmioMap | DmaMap | IrqAttach | PciConfigRead | PciConfigWrite
                  | DriverLoad | DriverUnload | TeeProbe | DisplayMap

  datatype Resource = Any
                    | Filesystem(pattern: string)
                    | Network(endpoint: string)
                    | Model(id: nat) | Agent(id: nat) | Node(id: nat) | IpcChannel(id: nat)
                    | PciDevice(segment: nat, bus: nat, device: nat, fn: nat)
                    | MmioRegion(base: nat, len: nat) | DmaWindow(base: nat, len: nat)
                    | Framebuffer(base: nat, len: nat)
                    | IrqLine(line: nat)

  // --- Patterns ------------------------------------------------------------------

  const WILD: string := "/**"

  function StripWild(s: string): Option<string> {
    if |s| >= |WILD| && s[|s| - |WILD|..] == WILD then Some(s[..|s| - |WILD|]) else None
  }

  /** `dir/` is a prefix of `s`. */
  predicate Beneath(s: string, dir: string) { dir + "/" <= s }

  predicate PathIsSubset(a: string, b: string) {
    match StripWild(b)
    case Some(dir) =>
      (match StripWild(a)
       case Some(sub) => sub == dir || Beneath(sub, dir)
       case None => a == dir || Beneath(a, dir))
    case None => a == b
  }

  /** `rsplit_once(':')`. */
  function SplitPort(s: string): Option<(string, string)> {
    if s == "" then None
    else if s[|s| - 1] == ':' then Some((s[..|s| - 1], ""))
    else
      match SplitPort(s[..|s| - 1])
      case None => None
      case Some(p) => Some((p.0, p.1 + [s[|s| - 1]]))
  }

  predicate FieldFits(wild: string, a: string, b: string) { b == wild || a == b }

  predicate EndpointIsSubset(a: string, b: string) {
    match (SplitPort(a), SplitPort(b))
    case (Some(p), Some(q)) => FieldFits("*", p.0, q.0) && FieldFits("0", p.1, q.1)
    case _ => false
  }

  predicate RangeIsSubset(base: nat, len: nat, base': nat, len': nat) {
    base >= base' && base + len <= base' + len'
  }

  predicate ResourceIsSubset(a: Resource, b: Resource) {
    match (a, b)
    case (_, Any) => true
    case (Filesystem(p), Filesystem(q)) => PathIsSubset(p, q)
    case (Network(p), Network(q)) => EndpointIsSubset(p, q)
    case (MmioRegion(x, n), MmioRegion(y, m)) => RangeIsSubset(x, n, y, m)
    case (DmaWindow(x, n), DmaWindow(y, m)) => RangeIsSubset(x, n, y, m)
    case (Framebuffer(x, n), Framebuffer(y, m)) => RangeIsSubset(x, n, y, m)
    case (Model(x), Model(y)) => x == y
    case (Agent(x), Agent(y)) => x == y
    case (Node(x), Node(y)) => x == y
    case (IpcChannel(x), IpcChannel(y)) => x == y
    case (PciDevice(_, _, _, _), PciDevice(_, _, _, _)) => a == b
    case (IrqLine(x), IrqLine(y)) => x == y
    case _ => false
  }

  // --- What a pattern matches --------------------------------------------------------

  /** The concrete paths a filesystem pattern stands for. */
  predicate PathMatches(pattern: string, path: string) {
    match StripWild(pattern)
    case Some(dir) => path == dir || Beneath(path, dir)
    case None => path == pattern
  }

  // A pattern with the wildcard after `dir` stands for `dir` and everything beneath it, any other
  // for itself alone.
  lemma PathMatchesIff(dir: string, pattern: string, path: string)
    ensures PathMatches(dir + "/**", path) <==> path == dir || dir + "/" <= path
    ensures (forall d: string :: pattern != d + "/**") ==> (PathMatches(pattern, path) <==> path == pattern)
  {
    var p := dir + "/**";
    assert p[|p| - 3..] == "/**" && p[..|p| - 3] == dir;
    if |pattern| >= 3 && pattern[|pattern| - 3..] == "/**" {
      assert pattern == pattern[..|pattern| - 3] + "/**";
    }
  }

  lemma BeneathTrans(a: string, b: string, c: string)
    requires Beneath(a, b) && (b == c || Beneath(b, c))
    ensures Beneath(a, c)
  {
    if b != c {
      assert c + "/" <= b && b + "/" <= a;
      assert a[..|c| + 1] == (b + "/")[..|c| + 1] == b[..|c| + 1] == c + "/";
    }
  }

  /** The path order is exactly inclusion of what the patterns match. */
  lemma PathSubsetIff(a: string, b: string)
    ensures PathIsSubset(a, b) <==> forall p :: PathMatches(a, p) ==> PathMatches(b, p)
  {
    if PathIsSubset(a, b) {
      forall p | PathMatches(a, p) ensures PathMatches(b, p) { PathSubsetSound(a, b, p); }
    } else {
      var w := PathWitness(a, b);
    }
  }

  lemma PathSubsetSound(a: string, b: string, p: string)
    requires PathIsSubset(a, b) && PathMatches(a, p)
    ensures PathMatches(b, p)
  {
    if StripWild(b).Some? && StripWild(a).Some? {
      var dir, sub := StripWild(b).value, StripWild(a).value;
      if p != sub && sub != dir { BeneathTrans(p, sub, dir); }
    }
  }

  lemma PathWitness(a: string, b: string) returns (p: string)
    requires !PathIsSubset(a, b)
    ensures PathMatches(a, p) && !PathMatches(b, p)
  {
    match StripWild(a)
    case None => p := a;
    case Some(sub) =>
      if StripWild(b).Some? || sub != b {
        p := sub;
      } else {
        p := sub + "/";
        assert |p| == |b| + 1;
      }
  }

  /** The split is at the last colon. */
  lemma {:induction false} SplitPortIff(s: string, host: string, port: string)
    ensures SplitPort(s) == Some((host, port)) <==> s == host + ":" + port && ':' !in port
    ensures SplitPort(s).None? <==> ':' !in s
  {
    if s == "" {
      assert |host + ":" + port| > 0;
    } else {
      var n := |s| - 1;
      assert s == s[..n] + [s[n]];
      if s[n] == ':' {
        SplitAtEnd(s, host, port);
      } else {
        SplitPortIff(s[..n], host, if port == "" then "" else port[..|port| - 1]);
        SplitBefore(s, host, port);
        if port != "" { assert port == port[..|port| - 1] + [port[|port| - 1]]; }
        if SplitPort(s[..n]).Some? { SnocIs(SplitPort(s[..n]).value.1, s[n], port); }
      }
    }
  }

  lemma SnocIs(x: string, c: char, y: string)
    ensures x + [c] == y <==> y != "" && y[..|y| - 1] == x && y[|y| - 1] == c
  {
    if y != "" { assert y == y[..|y| - 1] + [y[|y| - 1]]; }
    assert (x + [c])[..|x|] == x;
  }

  lemma SplitAtEnd(s: string, host: string, port: string)
    requires s != "" && s[|s| - 1] == ':'
    ensures host == s[..|s| - 1] && port == "" <==> s == host + ":" + port && ':' !in port
  {
    if s == host + ":" + port {
      if port != "" { assert s[|s| - 1] == port[|port| - 1]; } else { assert s[..|s| - 1] == host; }
    }
    if host == s[..|s| - 1] && port == "" { assert s == host + ":" + port; }
  }

  lemma SplitBefore(s: string, host: string, port: string)
    requires s != "" && s[|s| - 1] != ':'
    ensures s == host + ":" + port <==>
              port != "" && port[|port| - 1] == s[|s| - 1] && s[..|s| - 1] == host + ":" + port[..|port| - 1]
  {
    var n := |s| - 1;
    assert s == s[..n] + [s[n]];
    if port != "" {
      assert port == port[..|port| - 1] + [port[|port| - 1]];
      assert host + ":" + port == (host + ":" + port[..|port| - 1]) + [port[|port| - 1]];
    } else {
      assert (host + ":" + port)[|host|] == ':';
    }
  }

  /** A concrete endpoint a network pattern stands for. */
  predicate EndpointMatches(pattern: string, host: string, port: string) {
    match SplitPort(pattern)
    case None => false
    case Some(p) => FieldFits("*", host, p.0) && FieldFits("0", port, p.1)
  }

  /** `host:port` stands for the endpoints with that host, any if it is `*`, and that port, any if it
      is `0`; a pattern without a colon stands for none. */
  lemma EndpointMatchesIff(host: string, port: string, h: string, p: string)
    ensures ':' !in port ==>
              (EndpointMatches(host + ":" + port, h, p) <==> (host == "*" || h == host) && (port == "0" || p == port))
    ensures ':' !in host ==> !EndpointMatches(host, h, p)
  {
    SplitPortIff(host + ":" + port, host, port);
    SplitPortIff(host, h, p);
  }

  lemma EndpointSubsetSound(a: string, b: string, host: string, port: string)
    requires EndpointIsSubset(a, b) && EndpointMatches(a, host, port)
    ensures EndpointMatches(b, host, port)
  {
  }

  /** For patterns with a port, the endpoint order is exactly inclusion of what they match. */
  lemma EndpointSubsetIff(a: string, b: string)
    requires SplitPort(a).Some?
    ensures EndpointIsSubset(a, b) <==> forall h, p :: EndpointMatches(a, h, p) ==> EndpointMatches(b, h, p)
  {
    var (host, port) := SplitPort(a).value;
    if EndpointIsSubset(a, b) {
      forall h, p | EndpointMatches(a, h, p) ensures EndpointMatches(b, h, p) { EndpointSubsetSound(a, b, h, p); }
    } else if SplitPort(b).Some? {
      var (host', port') := SplitPort(b).value;
      var h := if host == "*" then host' + "x" else host;
      var p := if port == "0" then port' + "x" else port;
      assert |host' + "x"| == |host'| + 1 && |port' + "x"| == |port'| + 1;
      assert EndpointMatches(a, h, p) && !EndpointMatches(b, h, p);
    } else {
      assert EndpointMatches(a, host, port) && !EndpointMatches(b, host, port);
    }
  }

  // --- The order on resources ----------------------------------------------------------

  /** A network pattern without a port is not even a subset of itself; every other resource is. */
  lemma ResourceReflexiveIff(r: Resource)
    ensures ResourceIsSubset(r, r) <==> !(r.Network? && SplitPort(r.endpoint).None?)
  {
  }

  lemma PathTrans(a: string, b: string, c: string)
    requires PathIsSubset(a, b) && PathIsSubset(b, c)
    ensures PathIsSubset(a, c)
  {
    PathSubsetIff(a, b);
    PathSubsetIff(b, c);
    PathSubsetIff(a, c);
  }

  lemma ResourceTrans(a: Resource, b: Resource, c: Resource)
    requires ResourceIsSubset(a, b) && ResourceIsSubset(b, c)
    ensures ResourceIsSubset(a, c)
  {
    if a.Filesystem? && b.Filesystem? && c.Filesystem? {
      PathTrans(a.pattern, b.pattern, c.pattern);
    }
  }

  // --- Scopes ----------------------------------------------------------------------------

  datatype Window = Window(notBefore: nat, notAfter: nat)

  datatype Caveat = ExpiresAt(t: nat) | NotBefore(t: nat) | BoundToNode(node: nat) | BoundToSession(session: nat)
                  | Custom(tag: string, payload: seq<nat>)

  datatype Scope = Scope(action: Action, resource: Resource, window: Window, caveats: seq<Caveat>)

  predicate WindowIsSubset(a: Window, b: Window) { a.notBefore >= b.notBefore && a.notAfter <= b.notAfter }

  predicate Open(w: Window, now: nat) { w.notBefore <= now < w.notAfter }

  predicate ScopeIsSubset(a: Scope, b: Scope) {
    && a.action == b.action
    && ResourceIsSubset(a.resource, b.resource)
    && WindowIsSubset(a.window, b.window)
    && forall i :: 0 <= i < |b.caveats| ==> b.caveats[i] in a.caveats
  }

  lemma ScopeTrans(a: Scope, b: Scope, c: Scope)
    requires ScopeIsSubset(a, b) && ScopeIsSubset(b, c)
    ensures ScopeIsSubset(a, c)
  {
    ResourceTrans(a.resource, b.resource, c.resource);
    hide ResourceIsSubset;
    forall i | 0 <= i < |c.caveats| ensures c.caveats[i] in a.caveats {
      assert c.caveats[i] in b.caveats;
    }
  }

  /** One use of a capability: what is done to which concrete resource, when, and which caveats hold. */
  datatype Request = Request(action: Action, target: Target, now: nat, holds: set<Caveat>)

  datatype Target = Path(path: string) | Endpoint(host: string, port: string) | Byte(kind: Resource, address: nat)
                  | Exactly(resource: Resource)

  /** Resources compared by identity alone. */
  predicate IsIdentity(r: Resource) {
    r.Model? || r.Agent? || r.Node? || r.IpcChannel? || r.PciDevice? || r.IrqLine?
  }

  /** Whether a resource pattern covers a concrete target. */
  predicate Covers(r: Resource, t: Target) {
    match (r, t)
    case (Any, _) => true
    case (Filesystem(p), Path(q)) => PathMatches(p, q)
    case (Network(e), Endpoint(h, p)) => EndpointMatches(e, h, p)
    case (MmioRegion(x, n), Byte(k, a)) => k.MmioRegion? && x <= a < x + n
    case (DmaWindow(x, n), Byte(k, a)) => k.DmaWindow? && x <= a < x + n
    case (Framebuffer(x, n), Byte(k, a)) => k.Framebuffer? && x <= a < x + n
    case (_, Exactly(q)) => r == q && IsIdentity(r)
    case _ => false
  }

  predicate Authorises(s: Scope, q: Request) {
    && s.action == q.action && Covers(s.resource, q.target) && Open(s.window, q.now)
    && forall i :: 0 <= i < |s.caveats| ==> s.caveats[i] in q.holds
  }

  lemma ResourceSubsetSound(a: Resource, b: Resource, t: Target)
    requires ResourceIsSubset(a, b) && Covers(a, t)
    ensures Covers(b, t)
  {
    if a.Filesystem? && b.Filesystem? {
      PathSubsetSound(a.pattern, b.pattern, t.path);
    } else if a.Network? && b.Network? {
      EndpointSubsetSound(a.endpoint, b.endpoint, t.host, t.port);
    }
  }

  /** What the order is for: every request a smaller scope authorises, the larger one does too. */
  lemma SubsetAuthorises(a: Scope, b: Scope, q: Request)
    requires ScopeIsSubset(a, b) && Authorises(a, q)
    ensures Authorises(b, q)
  {
    ResourceSubsetSound(a.resource, b.resource, q.target);
    hide ResourceIsSubset, Covers;
    forall i | 0 <= i < |b.caveats| ensures b.caveats[i] in q.holds {
      assert b.caveats[i] in a.caveats;
    }
  }

  // --- The order is inclusion of authority ----------------------------------------------

  /** Some concrete target is covered. */
  predicate CoversSomething(r: Resource) {
    match r
    case Network(e) => SplitPort(e).Some?
    case MmioRegion(_, n) => n > 0
    case DmaWindow(_, n) => n > 0
    case Framebuffer(_, n) => n > 0
    case _ => true
  }

  lemma CoversSomethingIff(r: Resource)
    ensures CoversSomething(r) <==> exists t :: Covers(r, t)
  {
    if CoversSomething(r) { var t := SomeTarget(r); }
  }

  lemma SomeTarget(r: Resource) returns (t: Target)
    requires CoversSomething(r)
    ensures Covers(r, t) && (r.Any? ==> t == Exactly(Any))
  {
    match r
    case Any => t := Exactly(Any);
    case Filesystem(p) => t := Path(if StripWild(p).Some? then StripWild(p).value else p);
    case Network(e) => t := Endpoint(SplitPort(e).value.0, SplitPort(e).value.1);
    case MmioRegion(x, _) => t := Byte(r, x);
    case DmaWindow(x, _) => t := Byte(r, x);
    case Framebuffer(x, _) => t := Byte(r, x);
    case _ => t := Exactly(r);
  }

  /** A target that `a` covers and `b` does not. */
  lemma Outside(a: Resource, b: Resource) returns (t: Target)
    requires CoversSomething(a) && !ResourceIsSubset(a, b)
    ensures Covers(a, t) && !Covers(b, t)
  {
    hide PathIsSubset, PathMatches, EndpointIsSubset, EndpointMatches;
    if a.Filesystem? && b.Filesystem? {
      var w := PathWitness(a.pattern, b.pattern);
      t := Path(w);
    } else if a.Network? && b.Network? {
      EndpointSubsetIff(a.endpoint, b.endpoint);
      var h, o :| EndpointMatches(a.endpoint, h, o) && !EndpointMatches(b.endpoint, h, o);
      t := Endpoint(h, o);
    } else if SameRange(a, b) {
      t := Byte(a, if a.base < b.base then a.base else a.base + a.len - 1);
    } else {
      t := SomeTarget(a);
      OtherKind(a, b, t);
    }
  }

  predicate SameRange(a: Resource, b: Resource) {
    (a.MmioRegion? && b.MmioRegion?) || (a.DmaWindow? && b.DmaWindow?) || (a.Framebuffer? && b.Framebuffer?)
  }

  /** What an identity, or a resource of another kind than `b`, covers is not covered by `b`. */
  lemma OtherKind(a: Resource, b: Resource, t: Target)
    requires Covers(a, t) && !ResourceIsSubset(a, b) && !SameRange(a, b)
    requires !(a.Filesystem? && b.Filesystem?) && !(a.Network? && b.Network?)
    requires a.Any? ==> t == Exactly(Any)
    ensures !Covers(b, t)
  {
  }

  /** On resources that cover something, the order is exactly inclusion of what they cover. */
  lemma ResourceSubsetIff(a: Resource, b: Resource)
    requires CoversSomething(a)
    ensures ResourceIsSubset(a, b) <==> forall t :: Covers(a, t) ==> Covers(b, t)
  {
    if ResourceIsSubset(a, b) {
      forall t | Covers(a, t) ensures Covers(b, t) { ResourceSubsetSound(a, b, t); }
    } else {
      var t := Outside(a, b);
    }
  }

  /** A request that uses just what `a` grants: some target it covers, at a time it is open. */
  function Use(a: Scope, t: Target, now: nat): Request {
    Request(a.action, t, now, set c | c in a.caveats)
  }

  /** On scopes that authorise something, the order is exactly inclusion of authority. */
  lemma ScopeSubsetIff(a: Scope, b: Scope)
    requires CoversSomething(a.resource) && a.window.notBefore < a.window.notAfter
    ensures ScopeIsSubset(a, b) <==> forall q :: Authorises(a, q) ==> Authorises(b, q)
  {
    if ScopeIsSubset(a, b) {
      forall q | Authorises(a, q) ensures Authorises(b, q) { SubsetAuthorises(a, b, q); }
    } else {
      var q := Beyond(a, b);
    }
  }

  /** A request that `a` authorises and `b` does not. */
  lemma Beyond(a: Scope, b: Scope) returns (q: Request)
    requires CoversSomething(a.resource) && a.window.notBefore < a.window.notAfter && !ScopeIsSubset(a, b)
    ensures Authorises(a, q) && !Authorises(b, q)
  {
    var t: Target;
    if ResourceIsSubset(a.resource, b.resource) {
      t := SomeTarget(a.resource);
    } else {
      t := Outside(a.resource, b.resource);
    }
    hide ResourceIsSubset, Covers;
    q := Use(a, t, if a.window.notBefore < b.window.notBefore then a.window.notBefore else a.window.notAfter - 1);
    if c: Caveat :| c in b.caveats && c !in a.caveats { assert c !in q.holds; }
  }
}
