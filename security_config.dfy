/**
 * The URL authorization rules of the security filter chain: an ordered list of
 * (request matcher, requirement) entries, tried in declaration order, where the first
 * entry whose matcher accepts the request decides it. How a path pattern matches a path
 * is the web framework's business: it is a parameter `matches` here, and every property
 * below holds whatever that matcher does.
 */
module SecurityConfig {

  import opened Http
  import opened Entity

  /** Who the request is from, as the token filter established it. */
  datatype Identity = Identity(subject: string, role: Role)

  /** `requestMatchers([verb,] pattern)` or `anyRequest()`. */
  datatype RequestMatcher = PathPattern(verb: Option<HttpMethod>, pattern: string) | AnyRequest

  /** `permitAll()`, `hasAnyRole(...)` / `hasRole(...)`, `authenticated()`. */
  datatype Requirement = PermitAll | HasAnyRole(roles: set<Role>) | Authenticated

  datatype Rule = Rule(matcher: RequestMatcher, requirement: Requirement)

  /** Denied for lack of an identity, or for an identity without the needed role. */
  datatype Denial = Unauthenticated | Forbidden

  datatype Decision = Allow | Deny(denial: Denial)

  /** Whether a path pattern matches a request path: `matches(pattern, path)`. */
  type PathMatcher = (string, string) -> bool

  const AuthPattern: string := "/api/auth**"
  const UsersPattern: string := "/api/users**"

  /**
   * The rule list of `authorizeHttpRequests`, with the pattern of the two user rules as
   * a parameter (the configuration uses UsersPattern).
   */
  function Rules(usersPattern: string): (r: seq<Rule>)
    ensures |r| == 4 && EndsWithAnyRequest(r)
    ensures forall i :: 0 <= i < |r| ==> (r[i].requirement.PermitAll? <==> i == 0)
    ensures forall i :: 0 <= i < |r| && r[i].requirement.HasAnyRole? ==>
      ADMIN in r[i].requirement.roles && (USER in r[i].requirement.roles <==> r[i].matcher == PathPattern(Some(GET), usersPattern))
  {
    [ Rule(PathPattern(None, AuthPattern), PermitAll),
      Rule(PathPattern(Some(GET), usersPattern), HasAnyRole({ADMIN, USER})),
      Rule(PathPattern(None, usersPattern), HasAnyRole({ADMIN})),
      Rule(AnyRequest, Authenticated) ]
  }

  /** The rules as configured. */
  function AuthorizeHttpRequests(): (r: seq<Rule>)
    ensures EndsWithAnyRequest(r)
    ensures forall i :: 0 <= i < |r| && r[i].matcher.PathPattern? ==>
      r[i].matcher.pattern == AuthPattern || r[i].matcher.pattern == UsersPattern
  {
    Rules(UsersPattern)
  }

  predicate RuleMatches(r: Rule, matches: PathMatcher, verb: HttpMethod, path: string)
  {
    match r.matcher
    case AnyRequest => true
    case PathPattern(m, pattern) => (m.None? || m.value == verb) && matches(pattern, path)
  }

  /** The position, counted from `from`, of the first rule that matches the request. */
  function FirstMatch(rules: seq<Rule>, matches: PathMatcher, verb: HttpMethod, path: string,
                      from: nat): (r: Option<nat>)
    ensures r.Some? ==> from <= r.value < from + |rules|
    ensures r.Some? ==> RuleMatches(rules[r.value - from], matches, verb, path)
    ensures r.Some? ==> forall j :: 0 <= j < r.value - from ==> !RuleMatches(rules[j], matches, verb, path)
    ensures r.None? ==> forall j :: 0 <= j < |rules| ==> !RuleMatches(rules[j], matches, verb, path)
    decreases |rules|
  {
    if rules == [] then None
    else if RuleMatches(rules[0], matches, verb, path) then Some(from)
    else
      var r := FirstMatch(rules[1..], matches, verb, path, from + 1);
      assert forall j :: 1 <= j < |rules| ==> rules[j] == rules[1..][j - 1];
      r
  }

  /** Whether a requirement lets this identity through, and why not if it does not. */
  function Check(requirement: Requirement, identity: Option<Identity>): (d: Decision)
    ensures d == Allow <==>
      requirement.PermitAll?
      || (identity.Some? && (requirement.Authenticated? || identity.value.role in requirement.roles))
    ensures d == Deny(Unauthenticated) <==> !requirement.PermitAll? && identity.None?
    ensures d.Deny? ==> d.denial == Unauthenticated || d.denial == Forbidden
  {
    match requirement
    case PermitAll => Allow
    case Authenticated => if identity.Some? then Allow else Deny(Unauthenticated)
    case HasAnyRole(roles) =>
      if identity.None? then Deny(Unauthenticated)
      else if identity.value.role in roles then Allow
      else Deny(Forbidden)
  }

  /** A rule list whose last rule is `anyRequest()`. */
  predicate EndsWithAnyRequest(rules: seq<Rule>)
  {
    |rules| > 0 && rules[|rules| - 1].matcher.AnyRequest?
  }

  /**
   * The decision of the rule list on a request: that of the first rule that matches;
   * None when no rule matches.
   */
  function Decide(rules: seq<Rule>, matches: PathMatcher, verb: HttpMethod, path: string,
                  identity: Option<Identity>): (d: Option<Decision>)
    ensures d.None? <==> forall j :: 0 <= j < |rules| ==> !RuleMatches(rules[j], matches, verb, path)
    ensures EndsWithAnyRequest(rules) ==> d.Some?
    ensures d.Some? ==>
      exists i :: (&& 0 <= i < |rules|
                   && RuleMatches(rules[i], matches, verb, path)
                   && (forall j :: 0 <= j < i ==> !RuleMatches(rules[j], matches, verb, path))
                   && d.value == Check(rules[i].requirement, identity))
  {
    match FirstMatch(rules, matches, verb, path, 0)
    case None => None
    case Some(i) => Some(Check(rules[i].requirement, identity))
  }

  /** The requirement of the configured rule that decides a request. */
  function Governing(usersPattern: string, matches: PathMatcher, verb: HttpMethod, path: string): Requirement
  {
    if matches(AuthPattern, path) then PermitAll
    else if matches(usersPattern, path) && verb == GET then HasAnyRole({ADMIN, USER})
    else if matches(usersPattern, path) then HasAnyRole({ADMIN})
    else Authenticated
  }

  /** The configured list always decides, by the first of its rules that applies. */
  lemma RulesDecide(usersPattern: string, matches: PathMatcher, verb: HttpMethod, path: string,
                    identity: Option<Identity>)
    ensures Decide(Rules(usersPattern), matches, verb, path, identity)
         == Some(Check(Governing(usersPattern, matches, verb, path), identity))
  {
    var rules := Rules(usersPattern);
    var d := Decide(rules, matches, verb, path, identity);
    assert EndsWithAnyRequest(rules);
    var i :| && 0 <= i < |rules|
             && RuleMatches(rules[i], matches, verb, path)
             && (forall j :: 0 <= j < i ==> !RuleMatches(rules[j], matches, verb, path))
             && d.value == Check(rules[i].requirement, identity);
    if i == 0 {
    } else if i == 1 {
      assert !RuleMatches(rules[0], matches, verb, path);
    } else if i == 2 {
      assert !RuleMatches(rules[0], matches, verb, path);
      assert !RuleMatches(rules[1], matches, verb, path);
    } else {
      assert !RuleMatches(rules[0], matches, verb, path);
      assert !RuleMatches(rules[1], matches, verb, path);
      assert !RuleMatches(rules[2], matches, verb, path);
    }
  }

  /** Any request matching the auth pattern is let through, with or without identity. */
  lemma AuthIsPublic(usersPattern: string, matches: PathMatcher, verb: HttpMethod, path: string,
                     identity: Option<Identity>)
    requires matches(AuthPattern, path)
    ensures Decide(Rules(usersPattern), matches, verb, path, identity) == Some(Allow)
  {
    RulesDecide(usersPattern, matches, verb, path, identity);
  }

  /** A GET on the users pattern is allowed exactly for an ADMIN or USER identity. */
  lemma UsersReadNeedsRole(usersPattern: string, matches: PathMatcher, path: string,
                           identity: Option<Identity>)
    requires !matches(AuthPattern, path) && matches(usersPattern, path)
    ensures Decide(Rules(usersPattern), matches, GET, path, identity) == Some(Allow)
        <==> identity.Some? && identity.value.role in {ADMIN, USER}
    ensures Decide(Rules(usersPattern), matches, GET, path, identity) == Some(Allow) <==> identity.Some?
    ensures identity.None? ==> Decide(Rules(usersPattern), matches, GET, path, identity) == Some(Deny(Unauthenticated))
  {
    RulesDecide(usersPattern, matches, GET, path, identity);
    if identity.Some? {
      assert identity.value.role == ADMIN || identity.value.role == USER;
    }
  }

  /** Any other method on the users pattern is allowed only for ADMIN; USER is forbidden. */
  lemma UsersWriteNeedsAdmin(usersPattern: string, matches: PathMatcher, verb: HttpMethod,
                             path: string, identity: Option<Identity>)
    requires !matches(AuthPattern, path) && matches(usersPattern, path) && verb != GET
    ensures Decide(Rules(usersPattern), matches, verb, path, identity) == Some(Allow)
        <==> identity.Some? && identity.value.role == ADMIN
    ensures identity.Some? && identity.value.role == USER ==>
      Decide(Rules(usersPattern), matches, verb, path, identity) == Some(Deny(Forbidden))
    ensures identity.None? ==> Decide(Rules(usersPattern), matches, verb, path, identity) == Some(Deny(Unauthenticated))
  {
    RulesDecide(usersPattern, matches, verb, path, identity);
  }

  /** A request no earlier rule matches needs an identity, of any role. */
  lemma OtherNeedsAuthentication(usersPattern: string, matches: PathMatcher, verb: HttpMethod,
                                 path: string, identity: Option<Identity>)
    requires !matches(AuthPattern, path) && !matches(usersPattern, path)
    ensures Decide(Rules(usersPattern), matches, verb, path, identity)
         == Some(if identity.Some? then Allow else Deny(Unauthenticated))
  {
    RulesDecide(usersPattern, matches, verb, path, identity);
  }

  /** Without an identity, everything outside the auth pattern is denied. */
  lemma AnonymousOnlyReachesAuth(usersPattern: string, matches: PathMatcher, verb: HttpMethod, path: string)
    requires !matches(AuthPattern, path)
    ensures Decide(Rules(usersPattern), matches, verb, path, None) == Some(Deny(Unauthenticated))
  {
    RulesDecide(usersPattern, matches, verb, path, None);
  }
}
