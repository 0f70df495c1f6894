/** `Permission::evaluate`: whether a permission query admits the current
    visitor. The facts the original looks up itself (whether the browser
    runs on the local host, the session's debug override and the user found
    through a page access code or the login) are inputs here. */
module Permission {
  import opened Wrappers
  import opened PhpStrings

  /** The user the access-code lookup returns: none, the bare string an
      access code grants (compared as it is, with no e-mail and no role),
      or a user account whose name, e-mail and role are lowercased before
      any comparison. */
  datatype User =
    | NoUser
    | CodeUser(code: string)
    | Account(name: string, email: string, role: string)

  datatype Visitor = Visitor(isLocalhost: bool, debugOverride: bool, user: User)

  /** `(bool)$user`: an account is always true, a string by PHP truthiness. */
  predicate LoggedIn(u: User)
  {
    match u
    case NoUser => false
    case CodeUser(c) => Truthy(c)
    case Account(_, _, _) => true
  }

  function UserName(u: User): Option<string>
  {
    match u
    case NoUser => None
    case CodeUser(c) => Some(c)
    case Account(n, _, _) => Some(Lower(n))
  }

  function UserEmail(u: User): Option<string>
  {
    if u.Account? then Some(Lower(u.email)) else None
  }

  function UserRole(u: User): Option<string>
  {
    if u.Account? then Some(Lower(u.role)) else None
  }

  /** The word after `key` at the start of `q`, as `/^key(\w+)/` captures it. */
  function KeyArg(q: string, key: string): (r: Option<string>)
    ensures r.Some? ==> StartsWith(q, key) && r.value != []
    ensures r.Some? ==> forall i :: 0 <= i < |r.value| ==> IsWord(r.value[i])
    ensures StartsWith(q, key) && |q| > |key| && IsWord(q[|key|]) ==> r.Some?
    ensures r.Some? ==>
      |key| + |r.value| <= |q| && r.value == q[|key|..|key| + |r.value|] &&
      (|key| + |r.value| == |q| || !IsWord(q[|key| + |r.value|]))
  {
    if StartsWith(q, key) && |q| > |key| && IsWord(q[|key|]) then
      Some(q[|key|..|key| + Span(q, |key|, IsWord)])
    else None
  }

  /** The local-host shortcut applies. */
  predicate LocalGrant(q: string, v: Visitor, allowOnLocalhost: bool)
  {
    Contains(q, "localhost") && v.isLocalhost && !v.debugOverride && allowOnLocalhost
  }

  /** The decision after the special words and the local-host shortcut. */
  function UserRule(q: string, u: User): bool
  {
    if q == "notloggedin" || q == "anon" then !LoggedIn(u)
    else if Contains(q, "loggedin") then LoggedIn(u)
    else if KeyArg(q, "user=").Some? then
      var m := KeyArg(q, "user=").value;
      if UserName(u) == Some(m) || m == "loggedin" then LoggedIn(u)
      else if m == "anon" then !LoggedIn(u)
      else false
    else if KeyArg(q, "role=").Some? then
      UserRole(u) == KeyArg(q, "role=") && LoggedIn(u)
    else if UserName(u) == Some(q) || UserEmail(u) == Some(q) || UserRole(u) == Some(q) then
      LoggedIn(u)
    else false
  }

  /** `Permission::evaluate($permissionQuery, $allowOnLocalhost)`. */
  function Evaluate(query: string, v: Visitor, allowOnLocalhost: bool): bool
  {
    if !Truthy(query) then false
    else
      var q := Lower(query);
      if q == "nobody" || q == "noone" then false
      else if q == "anybody" || q == "anyone" then true
      else if LocalGrant(q, v, allowOnLocalhost) then true
      else UserRule(q, v.user)
  }

  /** The fixed words and the local-host shortcut: an empty query, `nobody`
      and `noone` admit nobody; `anybody`, `anyone` and the shortcut admit
      everybody; a visitor who is not logged in is admitted only by the
      anonymous words, the shortcut or `user=anon`. */
  lemma EvaluateWords(query: string, v: Visitor, allowOnLocalhost: bool)
    ensures !Truthy(query) ==> !Evaluate(query, v, allowOnLocalhost)
    ensures Lower(query) == "nobody" || Lower(query) == "noone" ==> !Evaluate(query, v, allowOnLocalhost)
    ensures Lower(query) == "anybody" || Lower(query) == "anyone" ==> Evaluate(query, v, allowOnLocalhost)
    ensures (Lower(query) != "nobody" && Lower(query) != "noone" &&
             LocalGrant(Lower(query), v, allowOnLocalhost)) ==> Evaluate(query, v, allowOnLocalhost)
    ensures Evaluate(query, v, allowOnLocalhost) && !LoggedIn(v.user) ==>
      var q := Lower(query);
      q == "anybody" || q == "anyone" || q == "notloggedin" || q == "anon" ||
      LocalGrant(q, v, allowOnLocalhost) || KeyArg(q, "user=") == Some("anon")
  {
    var q := Lower(query);
    if Lower(query) == "anybody" || Lower(query) == "anyone" || LocalGrant(q, v, allowOnLocalhost) {
      TruthyLower(query);
    }
  }

  /** Lowercasing keeps PHP truthiness. */
  lemma TruthyLower(s: string)
    ensures Truthy(Lower(s)) <==> Truthy(s)
  {
    if |s| == 1 {
      assert Lower(s)[0] == LowerChar(s[0]);
      assert s == [s[0]] && Lower(s) == [Lower(s)[0]];
    }
  }

  /** Two strings that differ at `i` differ. */
  lemma NotWord(q: string, w: string, i: nat)
    requires i < |q| && i < |w| && q[i] != w[i]
    ensures q != w
  {
  }

  /** Past the fixed words and the shortcut, the user rule decides. */
  lemma ByRule(query: string, v: Visitor, allowOnLocalhost: bool)
    requires Truthy(query)
    requires var q := Lower(query); q != "nobody" && q != "noone" && q != "anybody" && q != "anyone"
    requires !LocalGrant(Lower(query), v, allowOnLocalhost)
    ensures Evaluate(query, v, allowOnLocalhost) == UserRule(Lower(query), v.user)
  {
  }

  /** A query holding `loggedin` is truthy. */
  lemma LoggedinTruthy(query: string)
    requires Contains(Lower(query), "loggedin")
    ensures Truthy(query)
  {
    var q := Lower(query);
    ContainsIff(q, "loggedin");
    var i :| OccursAt(q, "loggedin", i);
    assert |query| >= 8;
  }

  /** `notloggedin` holds `loggedin`. */
  lemma NotloggedinHasLoggedin(q: string)
    requires q == "notloggedin"
    ensures Contains(q, "loggedin")
  {
    assert q[3..11] == "loggedin";
    assert OccursAt(q, "loggedin", 3);
    ContainsIff(q, "loggedin");
  }

  /** Login-state queries: `notloggedin` and `anon` admit exactly the
      visitors who are not logged in, any other query containing
      `loggedin` exactly those who are; `user=loggedin` is one of the
      latter, so its own test in the `user=` rule is never reached. */
  lemma LoginQueries(query: string, v: Visitor, allowOnLocalhost: bool)
    requires !LocalGrant(Lower(query), v, allowOnLocalhost)
    ensures Lower(query) == "notloggedin" || Lower(query) == "anon" ==>
      Evaluate(query, v, allowOnLocalhost) == !LoggedIn(v.user)
    ensures Lower(query) != "notloggedin" && Lower(query) != "anon" &&
            Lower(query) != "nobody" && Lower(query) != "noone" &&
            Contains(Lower(query), "loggedin") ==>
      Evaluate(query, v, allowOnLocalhost) == LoggedIn(v.user)
    ensures KeyArg(Lower(query), "user=") == Some("loggedin") ==> Contains(Lower(query), "loggedin")
  {
    var q := Lower(query);
    if KeyArg(q, "user=") == Some("loggedin") {
      assert OccursAt(q, "loggedin", 5) by {
        assert q[5..5 + Span(q, 5, IsWord)] == "loggedin";
      }
      ContainsIff(q, "loggedin");
    }
    if q == "notloggedin" || q == "anon" {
      TruthyLower(query);
      ByRule(query, v, allowOnLocalhost);
    } else if q != "nobody" && q != "noone" && Contains(q, "loggedin") {
      LoggedinTruthy(query);
      assert q != "anybody" && q != "anyone" by {
        ContainsIff(q, "loggedin");
        var i :| OccursAt(q, "loggedin", i);
      }
      ByRule(query, v, allowOnLocalhost);
    }
  }

  /** A query starting with a five-character key is none of the words. */
  lemma KeyedNotWord(q: string, key: string)
    requires |key| == 5 && StartsWith(q, key) && |q| >= 6 && key[0] != 'n' && key[0] != 'a'
    ensures q != "nobody" && q != "noone" && q != "anybody" && q != "anyone"
    ensures q != "notloggedin" && q != "anon"
  {
    assert q[0] == key[0];
    NotWord(q, "nobody", 0);
    NotWord(q, "noone", 0);
    NotWord(q, "anybody", 0);
    NotWord(q, "anyone", 0);
    NotWord(q, "notloggedin", 0);
    NotWord(q, "anon", 0);
  }

  /** `user=x` admits a logged-in user named `x` and nobody else, and
      `user=anon` admits exactly the visitors who are not logged in. */
  lemma UserQuery(query: string, v: Visitor, allowOnLocalhost: bool, x: string)
    requires !LocalGrant(Lower(query), v, allowOnLocalhost)
    requires !Contains(Lower(query), "loggedin")
    requires KeyArg(Lower(query), "user=") == Some(x)
    ensures x == "anon" && UserName(v.user) != Some("anon") ==>
      Evaluate(query, v, allowOnLocalhost) == !LoggedIn(v.user)
    ensures x != "anon" ==>
      Evaluate(query, v, allowOnLocalhost) == (UserName(v.user) == Some(x) && LoggedIn(v.user))
  {
    var q := Lower(query);
    KeyedNotWord(q, "user=");
    TruthyLower(query);
    ByRule(query, v, allowOnLocalhost);
    LoginQueries(query, v, allowOnLocalhost);
  }

  /** `role=x` admits a logged-in user whose role is `x` and nobody else. */
  lemma RoleQuery(query: string, v: Visitor, allowOnLocalhost: bool, x: string)
    requires !LocalGrant(Lower(query), v, allowOnLocalhost)
    requires !Contains(Lower(query), "loggedin")
    requires KeyArg(Lower(query), "role=") == Some(x)
    ensures Evaluate(query, v, allowOnLocalhost) == (UserRole(v.user) == Some(x) && LoggedIn(v.user))
  {
    var q := Lower(query);
    KeyedNotWord(q, "role=");
    assert KeyArg(q, "user=").None? by {
      NotWord(q[..5], "user=", 0);
    }
    TruthyLower(query);
    ByRule(query, v, allowOnLocalhost);
  }

  /** A plain word admits a logged-in user whose name, e-mail or role it is,
      and nobody else. */
  lemma ImplicitQuery(query: string, v: Visitor, allowOnLocalhost: bool)
    requires !LocalGrant(Lower(query), v, allowOnLocalhost)
    requires !Contains(Lower(query), "loggedin")
    requires KeyArg(Lower(query), "user=").None? && KeyArg(Lower(query), "role=").None?
    requires var q := Lower(query);
      q != "nobody" && q != "noone" && q != "anybody" && q != "anyone" && q != "anon"
    ensures var q := Lower(query);
      Evaluate(query, v, allowOnLocalhost) ==
        (Truthy(query) && LoggedIn(v.user) &&
         (UserName(v.user) == Some(q) || UserEmail(v.user) == Some(q) || UserRole(v.user) == Some(q)))
  {
    var q := Lower(query);
    if q == "notloggedin" {
      NotloggedinHasLoggedin(q);
    }
    if Truthy(query) {
      ByRule(query, v, allowOnLocalhost);
    }
  }

  /** A query `user=anon` that holds no `loggedin` admits a remote
      visitor nobody is logged in as. */
  lemma AnonUserQuery(query: string, v: Visitor, allowOnLocalhost: bool)
    requires !v.isLocalhost && v.user == NoUser
    requires KeyArg(Lower(query), "user=") == Some("anon")
    ensures Evaluate(query, v, allowOnLocalhost) == !Contains(Lower(query), "loggedin")
  {
    var q := Lower(query);
    KeyedNotWord(q, "user=");
    TruthyLower(query);
    ByRule(query, v, allowOnLocalhost);
  }

  /** Any other query admits such a visitor only when it is one of the
      anonymous words. */
  lemma AnonOtherQuery(query: string, v: Visitor, allowOnLocalhost: bool)
    requires !v.isLocalhost && v.user == NoUser
    requires KeyArg(Lower(query), "user=") != Some("anon")
    ensures var q := Lower(query);
      Evaluate(query, v, allowOnLocalhost) <==>
        (q == "anybody" || q == "anyone" || q == "notloggedin" || q == "anon")
  {
    var q := Lower(query);
    TruthyLower(query);
    if Truthy(query) && q != "nobody" && q != "noone" && q != "anybody" && q != "anyone" {
      ByRule(query, v, allowOnLocalhost);
    }
  }

  /** A remote visitor nobody is logged in as is admitted by the anonymous
      queries only. */
  lemma AnonymousVisitor(query: string, isLocalhost: bool, debugOverride: bool, allowOnLocalhost: bool)
    requires !isLocalhost
    ensures var q := Lower(query);
      Evaluate(query, Visitor(isLocalhost, debugOverride, NoUser), allowOnLocalhost) <==>
        (q == "anybody" || q == "anyone" || q == "notloggedin" || q == "anon" ||
         (KeyArg(q, "user=") == Some("anon") && !Contains(q, "loggedin")))
  {
    var v := Visitor(isLocalhost, debugOverride, NoUser);
    if KeyArg(Lower(query), "user=") == Some("anon") {
      AnonUserQuery(query, v, allowOnLocalhost);
      KeyedNotWord(Lower(query), "user=");
    } else {
      AnonOtherQuery(query, v, allowOnLocalhost);
    }
  }
}
