/**
 * A concrete path matcher with the framework's path-pattern rules: patterns and paths
 * are split on '/', a segment that is exactly `**` matches any number of whole segments,
 * and within any other segment `*` matches any run of characters, never a '/'. Under
 * these rules the configured pattern "/api/users**" is a one-segment glob: it matches
 * "/api/users" and "/api/usersXYZ" but nothing below "/api/users/".
 */
module SpringPaths {

  import opened Http
  import opened Entity
  import opened SecurityConfig

  /** The segments between the '/'s: `Split("/a/b") == ["", "a", "b"]`. */
  function Split(s: string): (r: seq<string>)
    ensures |r| >= 1
    ensures forall i :: 0 <= i < |r| ==> '/' !in r[i]
    ensures |r| == 1 <==> '/' !in s
  {
    if s == [] then [[]]
    else
      var rest := Split(s[1..]);
      if s[0] == '/' then [[]] + rest
      else [[s[0]] + rest[0]] + rest[1..]
  }

  /** The segments put back together with '/' between them. */
  function Join(segments: seq<string>): string
    requires |segments| >= 1
  {
    if |segments| == 1 then segments[0] else segments[0] + "/" + Join(segments[1..])
  }

  /** Splitting loses nothing: joining the segments gives back the path. */
  lemma {:induction false} JoinSplit(s: string)
    ensures Join(Split(s)) == s
  {
    if s != [] {
      JoinSplit(s[1..]);
      var rest := Split(s[1..]);
      if s[0] == '/' {
        assert Split(s)[1..] == rest;
      } else {
        var head := [s[0]] + rest[0];
        if |rest| == 1 {
          assert Join(Split(s)) == head;
        } else {
          assert Split(s)[1..] == rest[1..];
          assert Join(rest) == rest[0] + "/" + Join(rest[1..]);
        }
      }
    }
  }

  /** Glob matching within one segment: `*` matches any run of characters. */
  function Glob(p: string, s: string): bool
    decreases |p| + |s|
  {
    if p == [] then s == []
    else if p[0] == '*' then Glob(p[1..], s) || (s != [] && Glob(p, s[1..]))
    else s != [] && p[0] == s[0] && Glob(p[1..], s[1..])
  }

  /** A segment pattern without `*` matches exactly itself. */
  lemma {:induction false} GlobLiteral(p: string, s: string)
    requires '*' !in p
    ensures Glob(p, s) <==> p == s
    decreases |p| + |s|
  {
    if p != [] && s != [] {
      assert '*' !in p[1..];
      GlobLiteral(p[1..], s[1..]);
      if p[0] == s[0] && p[1..] == s[1..] {
        assert p == [p[0]] + p[1..] && s == [s[0]] + s[1..];
      }
    }
  }

  /** Segment-by-segment matching, where a `**` segment matches zero or more segments. */
  function MatchSegments(ps: seq<string>, ss: seq<string>): bool
    decreases |ps| + |ss|
  {
    if ps == [] then ss == []
    else if ps[0] == "**" then MatchSegments(ps[1..], ss) || (ss != [] && MatchSegments(ps, ss[1..]))
    else ss != [] && Glob(ps[0], ss[0]) && MatchSegments(ps[1..], ss[1..])
  }

  /** A trailing `**` matches any remainder of the path. */
  lemma {:induction false} TrailingDoubleStar(ps: seq<string>, ss: seq<string>)
    requires ps == ["**"]
    ensures MatchSegments(ps, ss)
  {
    if ss != [] {
      TrailingDoubleStar(ps, ss[1..]);
    }
  }

  /** Without a `**` segment, a pattern only matches paths of as many segments. */
  lemma {:induction false} NoDoubleStarSameDepth(ps: seq<string>, ss: seq<string>)
    requires "**" !in ps
    requires MatchSegments(ps, ss)
    ensures |ss| == |ps|
    decreases |ps| + |ss|
  {
    if ps != [] {
      assert "**" !in ps[1..];
      NoDoubleStarSameDepth(ps[1..], ss[1..]);
    }
  }

  /** The matcher handed to the rules. */
  function SpringMatches(pattern: string, path: string): bool
  {
    MatchSegments(Split(pattern), Split(path))
  }

  /** A path below "/api/users/": its first three segments are "", "api", "users". */
  predicate UnderUsers(path: string)
  {
    var segs := Split(path);
    |segs| >= 3 && segs[0] == "" && segs[1] == "api" && segs[2] == "users"
  }

  /** A first segment without '/' is glued to the first segment of the rest. */
  lemma {:induction false} SplitPrefix(a: string, rest: string)
    requires '/' !in a
    ensures Split(a + rest) == [a + Split(rest)[0]] + Split(rest)[1..]
    decreases |a|
  {
    if a == [] {
      var r := Split(rest);
      assert a + rest == rest && a + r[0] == r[0];
      assert [r[0]] + r[1..] == r;
    } else {
      assert (a + rest)[0] == a[0] && (a + rest)[1..] == a[1..] + rest;
      assert '/' !in a[1..];
      SplitPrefix(a[1..], rest);
      assert [a[0]] + (a[1..] + Split(rest)[0]) == a + Split(rest)[0];
    }
  }

  /** Joining segments without '/' and splitting again gives the same segments. */
  lemma {:induction false} SplitJoin(segments: seq<string>)
    requires |segments| >= 1
    requires forall i :: 0 <= i < |segments| ==> '/' !in segments[i]
    ensures Split(Join(segments)) == segments
  {
    if |segments| == 1 {
      SplitPrefix(segments[0], []);
      assert segments[0] + [] == segments[0];
    } else {
      var tail := Join(segments[1..]);
      SplitJoin(segments[1..]);
      assert ("/" + tail)[1..] == tail;
      assert Split("/" + tail) == [[]] + segments[1..];
      SplitPrefix(segments[0], "/" + tail);
      assert segments[0] + "/" + tail == segments[0] + ("/" + tail);
      assert segments[0] + [] == segments[0];
    }
  }

  lemma SplitUsersPattern()
    ensures Split(UsersPattern) == ["", "api", "users**"]
  {
    var segs := ["", "api", "users**"];
    assert Join(segs[2..]) == "users**";
    assert Join(segs[1..]) == "api/users**";
    assert Join(segs) == UsersPattern;
    SplitJoin(segs);
  }

  lemma SplitAuthPattern()
    ensures Split(AuthPattern) == ["", "api", "auth**"]
  {
    var segs := ["", "api", "auth**"];
    assert Join(segs[2..]) == "auth**";
    assert Join(segs[1..]) == "api/auth**";
    assert Join(segs) == AuthPattern;
    SplitJoin(segs);
  }

  /** The intended pattern for everything below "/api/users". */
  const UsersTreePattern: string := "/api/users/**"

  lemma SplitUsersTreePattern()
    ensures Split(UsersTreePattern) == ["", "api", "users", "**"]
  {
    var segs := ["", "api", "users", "**"];
    assert Join(segs[3..]) == "**";
    assert Join(segs[2..]) == "users/**";
    assert Join(segs[1..]) == "api/users/**";
    assert Join(segs) == UsersTreePattern;
    SplitJoin(segs);
  }

  /** No path below "/api/users/" matches the auth pattern. */
  lemma UsersPathsAreNotAuth(path: string)
    requires UnderUsers(path)
    ensures !SpringMatches(AuthPattern, path)
  {
    SplitAuthPattern();
    var ss := Split(path);
    assert !Glob("auth**", "users");
    assert !MatchSegments(["auth**"], ss[2..]);
    assert ss[1..][1..] == ss[2..];
    assert ["api", "auth**"][1..] == ["auth**"];
    assert !MatchSegments(["api", "auth**"], ss[1..]);
    assert ["", "api", "auth**"][1..] == ["api", "auth**"];
  }

  /** As configured, the users pattern only matches paths of three segments. */
  lemma UsersPatternIsOneSegment(path: string)
    requires SpringMatches(UsersPattern, path)
    ensures |Split(path)| == 3
  {
    SplitUsersPattern();
    NoDoubleStarSameDepth(Split(UsersPattern), Split(path));
  }

  /** A literal first pattern segment must equal the first path segment. */
  lemma LiteralHead(ps: seq<string>, ss: seq<string>)
    requires |ps| >= 1 && '*' !in ps[0]
    ensures MatchSegments(ps, ss) <==> ss != [] && ss[0] == ps[0] && MatchSegments(ps[1..], ss[1..])
  {
    if ss != [] {
      GlobLiteral(ps[0], ss[0]);
    }
  }

  /** Segments "", "api", "users", `**` match exactly the segment lists that start with the first three. */
  lemma TreeSegments(ps: seq<string>, ss: seq<string>)
    requires |ps| == 4 && ps[0] == "" && ps[1] == "api" && ps[2] == "users" && ps[3] == "**"
    ensures MatchSegments(ps, ss) <==> |ss| >= 3 && ss[0] == "" && ss[1] == "api" && ss[2] == "users"
  {
    LiteralHead(ps, ss);
    if |ss| >= 1 {
      LiteralHead(ps[1..], ss[1..]);
    }
    if |ss| >= 2 {
      assert ps[1..][1..] == ps[2..] && ss[1..][1..] == ss[2..];
      LiteralHead(ps[2..], ss[2..]);
    }
    if |ss| >= 3 {
      assert ps[2..][1..] == ps[3..] && ss[2..][1..] == ss[3..];
      TrailingDoubleStar(ps[3..], ss[3..]);
    }
  }

  /** The intended pattern matches exactly the paths below "/api/users". */
  lemma UsersTreePatternMatches(path: string)
    ensures SpringMatches(UsersTreePattern, path) <==> UnderUsers(path)
  {
    SplitUsersTreePattern();
    TreeSegments(Split(UsersTreePattern), Split(path));
  }

  /**
   * As configured: a request of any method on any path with at least one segment below
   * "/api/users/" (so "/api/users/admin" too) falls through to
   * `anyRequest().authenticated()`, so a USER identity is let through.
   */
  lemma AsConfiguredUserWritesBelowUsers(verb: HttpMethod, path: string, subject: string)
    requires UnderUsers(path) && |Split(path)| > 3
    ensures Decide(AuthorizeHttpRequests(), SpringMatches, verb, path, Some(Identity(subject, USER)))
         == Some(Allow)
  {
    UsersPathsAreNotAuth(path);
    if SpringMatches(UsersPattern, path) {
      UsersPatternIsOneSegment(path);
    }
    OtherNeedsAuthentication(UsersPattern, SpringMatches, verb, path, Some(Identity(subject, USER)));
  }

  /** The sample path of a delete by id. */
  lemma SplitSamplePath()
    ensures Split("/api/users/id/42") == ["", "api", "users", "id", "42"]
  {
    var segs := ["", "api", "users", "id", "42"];
    assert Join(segs[4..]) == "42";
    assert Join(segs[3..]) == "id/42";
    assert Join(segs[2..]) == "users/id/42";
    assert Join(segs[1..]) == "api/users/id/42";
    assert Join(segs) == "/api/users/id/42";
    SplitJoin(segs);
  }

  /** The concrete case: a USER deleting another account by id. */
  lemma AsConfiguredUserDeletesById(subject: string)
    ensures Decide(AuthorizeHttpRequests(), SpringMatches, DELETE, "/api/users/id/42",
                   Some(Identity(subject, USER))) == Some(Allow)
  {
    SplitSamplePath();
    AsConfiguredUserWritesBelowUsers(DELETE, "/api/users/id/42", subject);
  }

  /** The table as intended: the users rules on UsersTreePattern. */
  function IntendedRules(): seq<Rule>
  {
    Rules(UsersTreePattern)
  }

  /** With the intended pattern, a read below "/api/users" needs an identity of either role. */
  lemma IntendedUsersReads(path: string, identity: Option<Identity>)
    requires UnderUsers(path)
    ensures Decide(IntendedRules(), SpringMatches, GET, path, identity) == Some(Allow) <==> identity.Some?
    ensures identity.None? ==> Decide(IntendedRules(), SpringMatches, GET, path, identity) == Some(Deny(Unauthenticated))
  {
    UsersPathsAreNotAuth(path);
    UsersTreePatternMatches(path);
    UsersReadNeedsRole(UsersTreePattern, SpringMatches, path, identity);
  }

  /**
   * With the intended pattern, any other request below "/api/users" needs ADMIN, and a
   * USER identity is forbidden.
   */
  lemma IntendedUsersWrites(verb: HttpMethod, path: string, identity: Option<Identity>)
    requires UnderUsers(path) && verb != GET
    ensures Decide(IntendedRules(), SpringMatches, verb, path, identity) == Some(Allow)
        <==> identity.Some? && identity.value.role == ADMIN
    ensures identity.Some? && identity.value.role == USER ==>
      Decide(IntendedRules(), SpringMatches, verb, path, identity) == Some(Deny(Forbidden))
  {
    UsersPathsAreNotAuth(path);
    UsersTreePatternMatches(path);
    UsersWriteNeedsAdmin(UsersTreePattern, SpringMatches, verb, path, identity);
  }

  /** The concrete case under the intended table: the same deletion is forbidden. */
  lemma IntendedUserCannotDeleteById(subject: string)
    ensures Decide(IntendedRules(), SpringMatches, DELETE, "/api/users/id/42",
                   Some(Identity(subject, USER))) == Some(Deny(Forbidden))
  {
    SplitSamplePath();
    IntendedUsersWrites(DELETE, "/api/users/id/42", Some(Identity(subject, USER)));
  }
}
