/**
  The wrapper around one routing-table entry (lib/aygabtu/route_wrapper.rb).

  The routing library's own route object is foreign code: its verb, required
  parts, controller/action requirements, name and the printed form of its path
  regexp become plain fields of `Route`.  What the wrapper computes from them
  itself, the GET check, the controller's namespace and basename and the two
  description strings, is modelled here.
*/
module RouteWrapper {
  import opened Wrappers

  /** One routing-table entry as the wrapper sees it. */
  datatype Route = Route(
    verb: string,                 // the verb specification, e.g. "GET" or "GET|POST"
    requiredParts: seq<string>,   // parameter names needed to generate a URL
    controller: Option<string>,   // `requirements[:controller]`, slash separated
    action: Option<string>,       // `requirements[:action]`
    name: Option<string>,         // the declared route name, if any
    pathDescription: string       // the printed path regexp, kept opaque
  )

  // ---------------------------------------------------------------------------
  // get?
  // ---------------------------------------------------------------------------

  /** `pat` occurs in `s` starting at position `k`. */
  predicate OccursAt(s: string, pat: string, k: nat) {
    k + |pat| <= |s| && s[k..k + |pat|] == pat
  }

  /** `get?`: the verb specification contains "GET" somewhere; a substring test,
      not an equality test. */
  method IsGet(r: Route) returns (b: bool)
    ensures b <==> exists k: nat :: OccursAt(r.verb, "GET", k)
  {
    var k := 0;
    while k + 3 <= |r.verb|
      invariant k <= |r.verb| + 1
      invariant forall j: nat :: j < k ==> !OccursAt(r.verb, "GET", j)
      decreases |r.verb| - k
    {
      if r.verb[k..k + 3] == "GET" {
        assert OccursAt(r.verb, "GET", k);
        return true;
      }
      k := k + 1;
    }
    return false;
  }

  // ---------------------------------------------------------------------------
  // controller_namespace / controller_basename
  // ---------------------------------------------------------------------------

  /** Position of the last '/' in `s`, if there is one. */
  function LastSlash(s: string): (r: Option<nat>)
    ensures r.Some? ==> r.value < |s| && s[r.value] == '/'
    ensures r.Some? ==> forall j :: r.value < j < |s| ==> s[j] != '/'
    ensures r.None? ==> forall j :: 0 <= j < |s| ==> s[j] != '/'
  {
    if |s| == 0 then None
    else if s[|s| - 1] == '/' then Some(|s| - 1)
    else LastSlash(s[..|s| - 1])
  }

  /** `LastSlash` is pinned down by its contract: a position holding the last
      '/' is the answer. */
  lemma {:induction false} LastSlashAt(s: string, k: nat)
    requires k < |s| && s[k] == '/'
    requires forall j :: k < j < |s| ==> s[j] != '/'
    ensures LastSlash(s) == Some(k)
    decreases |s|
  {
    if k < |s| - 1 {
      var s' := s[..|s| - 1];
      assert forall j :: k < j < |s'| ==> s'[j] == s[j];
      LastSlashAt(s', k);
    }
  }

  /** A string without '/' has no last slash. */
  lemma {:induction false} LastSlashNone(s: string)
    requires forall j :: 0 <= j < |s| ==> s[j] != '/'
    ensures LastSlash(s) == None
    decreases |s|
  {
    if |s| > 0 {
      var s' := s[..|s| - 1];
      assert forall j :: 0 <= j < |s'| ==> s'[j] == s[j];
      LastSlashNone(s');
    }
  }

  /** A controller identifier of the shape this model assumes: non-empty names
      joined by single slashes, e.g. "admin/widgets". */
  predicate ControllerId(c: string) {
    && |c| > 0
    && c[0] != '/'
    && c[|c| - 1] != '/'
    && forall j :: 0 <= j < |c| - 1 ==> !(c[j] == '/' && c[j + 1] == '/')
  }

  /** A single name without any slash. */
  predicate PlainName(b: string) {
    |b| > 0 && forall j :: 0 <= j < |b| ==> b[j] != '/'
  }

  /** The namespace of a controller identifier: everything before its last '/',
      absent (never empty) when there is no such prefix. */
  function NamespaceOf(controller: Option<string>): Option<string>
  {
    match controller
    case None => None
    case Some(c) =>
      match LastSlash(c)
      case None => None
      case Some(k) => if k == 0 then None else Some(c[..k])
  }

  /** The basename of a controller identifier: everything after its last '/'. */
  function BasenameOf(controller: Option<string>): Option<string>
  {
    match controller
    case None => None
    case Some(c) =>
      match LastSlash(c)
      case None => Some(c)
      case Some(k) => Some(c[k + 1..])
  }

  /** A namespace, when there is one, is never the empty string. */
  lemma NamespaceNeverEmpty(controller: Option<string>)
    ensures NamespaceOf(controller) != Some("")
    ensures controller.None? ==> NamespaceOf(controller).None?
  {
  }

  /** Namespace and basename split a well-formed controller identifier at its
      last slash: the namespace is again a well-formed identifier, the basename
      is a plain name, and joining them back gives the identifier. */
  lemma {:induction false} SplitController(c: string)
    requires ControllerId(c)
    ensures BasenameOf(Some(c)).Some? && PlainName(BasenameOf(Some(c)).value)
    ensures NamespaceOf(Some(c)).None? <==> (forall j :: 0 <= j < |c| ==> c[j] != '/')
    ensures NamespaceOf(Some(c)).None? ==> BasenameOf(Some(c)) == Some(c)
    ensures NamespaceOf(Some(c)).Some? ==>
              ControllerId(NamespaceOf(Some(c)).value)
              && NamespaceOf(Some(c)).value + "/" + BasenameOf(Some(c)).value == c
  {
    match LastSlash(c)
    case None =>
    case Some(k) =>
      assert 0 < k < |c| - 1;
      var ns, b := c[..k], c[k + 1..];
      assert c == ns + "/" + b;
      assert forall j :: 0 <= j < |ns| ==> ns[j] == c[j];
      assert ns[|ns| - 1] == c[k - 1] != '/';
      assert forall j :: 0 <= j < |b| ==> b[j] == c[k + 1 + j];
  }

  /** Joining a namespace and a plain name with '/' is undone by namespace and
      basename. */
  lemma {:induction false} JoinController(ns: string, b: string)
    requires ControllerId(ns) && PlainName(b)
    ensures ControllerId(ns + "/" + b)
    ensures NamespaceOf(Some(ns + "/" + b)) == Some(ns)
    ensures BasenameOf(Some(ns + "/" + b)) == Some(b)
  {
    var c := ns + "/" + b;
    assert c[|ns|] == '/';
    assert forall j :: |ns| < j < |c| ==> c[j] == b[j - |ns| - 1];
    assert LastSlash(c) == Some(|ns|);
    assert c[..|ns|] == ns;
    assert c[|ns| + 1..] == b;
    forall j | 0 <= j < |c| - 1
      ensures !(c[j] == '/' && c[j + 1] == '/')
    {
      if j < |ns| - 1 {
        assert c[j] == ns[j] && c[j + 1] == ns[j + 1];
      } else if j == |ns| - 1 {
        assert c[j] == ns[j];
      } else {
        assert c[j + 1] == b[j - |ns|];
      }
    }
  }

  lemma NamespaceExamples()
    ensures NamespaceOf(Some("admin/widgets")) == Some("admin")
    ensures NamespaceOf(Some("a/b/c")) == Some("a/b")
    ensures NamespaceOf(Some("widgets")) == None
    ensures BasenameOf(Some("admin/widgets")) == Some("widgets")
    ensures BasenameOf(Some("widgets")) == Some("widgets")
  {
    var aw := "admin/widgets";
    assert aw[5] == '/' && forall j :: 5 < j < |aw| ==> aw[j] != '/';
    LastSlashAt(aw, 5);
    assert aw[..5] == "admin" && aw[6..] == "widgets";
    var abc := "a/b/c";
    assert abc[3] == '/' && abc[4] != '/';
    LastSlashAt(abc, 3);
    assert abc[..3] == "a/b";
    var w := "widgets";
    assert forall j :: 0 <= j < |w| ==> w[j] != '/';
    LastSlashNone(w);
  }

  /** A wrapper with the memo slot of `controller_namespace`: `None` until the
      first call, then `Some(v)` for the cached value `v` (itself possibly nil). */
  datatype Wrapper = Wrapper(route: Route, namespaceMemo: Option<Option<string>>)

  /** A memo holds nothing, or the value computed from the wrapped route. */
  predicate MemoSound(w: Wrapper) {
    w.namespaceMemo.Some? ==> w.namespaceMemo.value == NamespaceOf(w.route.controller)
  }

  /** `controller_namespace`: returns the namespace and the wrapper with its memo
      filled in.  The wrapped route never changes, and once the memo is filled
      the stored value, nil included, is returned without recomputation. */
  function ControllerNamespace(w: Wrapper): (res: (Option<string>, Wrapper))
    ensures res.1.route == w.route
    ensures res.1.namespaceMemo == Some(res.0)
    ensures w.namespaceMemo.Some? ==> res.1 == w
    ensures MemoSound(w) ==> res.0 == NamespaceOf(w.route.controller) && MemoSound(res.1)
  {
    match w.namespaceMemo
    case Some(v) => (v, w)
    case None =>
      var v := NamespaceOf(w.route.controller);
      (v, w.(namespaceMemo := Some(v)))
  }

  /** Calling `controller_namespace` again returns the first answer and leaves
      the wrapper as the first call left it. */
  lemma NamespaceMemoStable(w: Wrapper)
    ensures ControllerNamespace(ControllerNamespace(w).1) == ControllerNamespace(w)
  {
  }

  /** `controller_basename`. */
  function ControllerBasename(r: Route): (b: Option<string>)
    ensures b.None? <==> r.controller.None?
    ensures b.Some? ==> |b.value| <= |r.controller.value|
                        && r.controller.value[|r.controller.value| - |b.value|..] == b.value
    ensures b.Some? ==> forall j :: 0 <= j < |b.value| ==> b.value[j] != '/'
    ensures b.Some? && |b.value| < |r.controller.value| ==>
              r.controller.value[|r.controller.value| - |b.value| - 1] == '/'
  {
    BasenameIsLastSegment(r.controller);
    BasenameOf(r.controller)
  }

  /** The basename is the longest slash-free suffix: all of the controller, or
      the part after a '/'. */
  lemma BasenameIsLastSegment(controller: Option<string>)
    ensures var b := BasenameOf(controller);
            && (b.None? <==> controller.None?)
            && (b.Some? ==> |b.value| <= |controller.value|
                            && controller.value[|controller.value| - |b.value|..] == b.value
                            && (forall j :: 0 <= j < |b.value| ==> b.value[j] != '/')
                            && (|b.value| < |controller.value| ==>
                                  controller.value[|controller.value| - |b.value| - 1] == '/'))
  {
    if controller.Some? && LastSlash(controller.value).Some? {
      var c, k := controller.value, LastSlash(controller.value).value;
      var b := c[k + 1..];
      assert forall j :: 0 <= j < |b| ==> b[j] == c[k + 1 + j];
    }
  }

  // ---------------------------------------------------------------------------
  // inspect / example_message
  // ---------------------------------------------------------------------------

  const NamedPrefix := "route named :"
  const MatchingPrefix := "route matching "
  const MessagePrefix := "passes aygabtu assertions for "

  /** What a route's description identifies it by. */
  datatype Identity = ByName(name: string) | ByPath(path: string)

  function IdentityOf(r: Route): Identity {
    match r.name
    case Some(n) => ByName(n)
    case None => ByPath(r.pathDescription)
  }

  /** Reads a description back; the two prefixes differ at their seventh
      character, so a description names exactly one identity. */
  function ParseInspect(s: string): Option<Identity> {
    if NamedPrefix <= s then Some(ByName(s[|NamedPrefix|..]))
    else if MatchingPrefix <= s then Some(ByPath(s[|MatchingPrefix|..]))
    else None
  }

  /** `inspect`: the route by its name when it has one, else by its path. */
  function Inspect(r: Route): (s: string)
    ensures ParseInspect(s) == Some(IdentityOf(r))
  {
    match r.name
    case Some(n) =>
      var s := NamedPrefix + n;
      assert s[..|NamedPrefix|] == NamedPrefix;
      s
    case None =>
      var s := MatchingPrefix + r.pathDescription;
      assert s[..|MatchingPrefix|] == MatchingPrefix;
      assert s[6] != NamedPrefix[6];
      s
  }

  /** Two routes get the same description only if they have the same identity. */
  lemma InspectInjective(r1: Route, r2: Route)
    requires Inspect(r1) == Inspect(r2)
    ensures IdentityOf(r1) == IdentityOf(r2)
  {
    assert ParseInspect(Inspect(r1)) == Some(IdentityOf(r1));
  }

  function ParseExampleMessage(s: string): Option<Identity> {
    if MessagePrefix <= s then ParseInspect(s[|MessagePrefix|..]) else None
  }

  /** `example_message`: the description of a generated example, naming the
      route as `inspect` does. */
  function ExampleMessage(r: Route): (s: string)
    ensures MessagePrefix <= s
    ensures ParseExampleMessage(s) == Some(IdentityOf(r))
  {
    var s := MessagePrefix + Inspect(r);
    assert s[..|MessagePrefix|] == MessagePrefix;
    assert s[|MessagePrefix|..] == Inspect(r);
    s
  }
}
