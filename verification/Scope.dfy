/** Access-token scopes (src/access.c): a comma-separated list of
    action:resource grants, where a resource may end in a star. */
module Scope {
  import opened Common

  /** The characters of a C string, without its terminator. */
  type CString = s: Bytes | 0 !in s witness []

  const STAR: byte := 42
  const COMMA: byte := 44
  const SLASH: byte := 47
  const COLON: byte := 58

  /** s[i] in C: the terminator may be read, nothing beyond it. */
  function At(s: CString, i: nat): byte
    requires i <= |s|
  {
    if i < |s| then s[i] else 0
  }

  /** strncmp(a, b, n) == 0 from position i on, where a has n characters. It
      stops at a difference, which includes b's terminator. */
  function SamePrefix(a: CString, b: CString, n: nat, i: nat): (r: bool)
    requires i <= n <= |a| && i <= |b| && a[..i] == b[..i]
    ensures r <==> n <= |b| && a[..n] == b[..n]
    decreases n - i
  {
    if i == n then true
    else if a[i] != At(b, i) then assert i < |b| && n <= |b| ==> a[..n][i] != b[..n][i]; false
    else SamePrefix(a, b, n, i + 1)
  }

  /** access_resource_matches. Every read of `required` is at or before its
      terminator. */
  function ResourceMatches(allowed: CString, required: CString): bool {
    if allowed == [STAR] then true
    else if allowed != [] && allowed[|allowed| - 1] == STAR then
      var n := |allowed| - 1;
      if !SamePrefix(allowed, required, n, 0) then false
      else if n > 0 && allowed[n - 1] != SLASH then At(required, n) == 0 || At(required, n) == SLASH
      else true
    else |allowed| == |required| && SamePrefix(allowed, required, |required|, 0)
  }

  /** What a pattern means: a literal matches itself; p* matches what p is a
      prefix of, up to a segment boundary. */
  predicate Covers(pattern: Bytes, resource: Bytes) {
    if pattern != [] && pattern[|pattern| - 1] == STAR then
      var p := pattern[..|pattern| - 1];
      p <= resource && (p == [] || p[|p| - 1] == SLASH || resource == p || resource[|p|] == SLASH)
    else pattern == resource
  }

  lemma {:induction false} ResourceMatchesIsCovers(allowed: CString, required: CString)
    ensures ResourceMatches(allowed, required) <==> Covers(allowed, required)
  {
    if allowed != [] && allowed[|allowed| - 1] == STAR {
      var n := |allowed| - 1;
      var p := allowed[..n];
      assert p <= required <==> n <= |required| && allowed[..n] == required[..n];
      if n <= |required| && p == required[..n] && n < |required| {
        assert required[n] in required;
      }
    }
  }

  /** memchr and strchr: the first position of a character. */
  function IndexOf(s: Bytes, c: byte): (r: Option<nat>)
    ensures r.Some? ==> r.value < |s| && s[r.value] == c && c !in s[..r.value]
    ensures r.None? ==> c !in s
  {
    if s == [] then None
    else if s[0] == c then Some(0)
    else
      match IndexOf(s[1..], c)
      case None => None
      case Some(i) => assert s[..i + 1] == [s[0]] + s[1..][..i]; Some(i + 1)
  }

  lemma {:induction false} FirstIndex(s: Bytes, c: byte, i: nat)
    requires i < |s| && s[i] == c && c !in s[..i]
    ensures IndexOf(s, c) == Some(i)
    decreases i
  {
    if i > 0 {
      assert s[0] in s[..i];
      assert s[1..][..i - 1] == s[1..i];
      assert forall x :: x in s[1..i] ==> x in s[..i];
      FirstIndex(s[1..], c, i - 1);
    }
  }

  /** access_one_scope_allows. */
  function OneScopeAllows(scope: CString, required: CString): bool {
    if scope == [] then false
    else if scope == [STAR] then true
    else
      var t, r := IndexOf(scope, COLON), IndexOf(required, COLON);
      if t == None || r == None || t.value == 0 || r.value == 0 then false
      else if (t.value == 1 && scope[0] == STAR)
              || (t.value == r.value && SamePrefix(scope, required, r.value, 0)) then
        ResourceMatches(scope[t.value + 1..], required[r.value + 1..])
      else false
  }

  /** What one grant means. */
  ghost predicate Grants(scope: Bytes, required: Bytes) {
    scope == [STAR] ||
    exists action, pattern, wanted, resource ::
      IsPair(scope, action, pattern) && IsPair(required, wanted, resource) &&
      (action == [STAR] || action == wanted) && Covers(pattern, resource)
  }

  /** s is "action:resource", split at its first colon. */
  predicate IsPair(s: Bytes, action: Bytes, resource: Bytes) {
    s == action + [COLON] + resource && action != [] && COLON !in action
  }

  lemma {:induction false} PairIsIndex(s: Bytes, action: Bytes, resource: Bytes)
    requires IsPair(s, action, resource)
    ensures IndexOf(s, COLON) == Some(|action|) && s[..|action|] == action && s[|action| + 1..] == resource
  {
    assert s[..|action|] == action;
    FirstIndex(s, COLON, |action|);
  }

  lemma {:induction false} IndexIsPair(s: Bytes)
    requires IndexOf(s, COLON).Some? && IndexOf(s, COLON).value > 0
    ensures var i := IndexOf(s, COLON).value; IsPair(s, s[..i], s[i + 1..])
  {
  }

  lemma {:induction false} AllowedIsGranted(scope: CString, required: CString)
    requires OneScopeAllows(scope, required)
    ensures Grants(scope, required)
  {
    if scope != [STAR] {
      var t, r := IndexOf(scope, COLON).value, IndexOf(required, COLON).value;
      IndexIsPair(scope);
      IndexIsPair(required);
      ResourceMatchesIsCovers(scope[t + 1..], required[r + 1..]);
      assert t == 1 && scope[0] == STAR ==> scope[..t] == [STAR];
    }
  }

  lemma {:induction false} GrantedIsAllowed(scope: CString, required: CString)
    requires Grants(scope, required)
    ensures OneScopeAllows(scope, required)
  {
    if scope != [STAR] {
      var action, pattern, wanted, resource :|
        IsPair(scope, action, pattern) && IsPair(required, wanted, resource) &&
        (action == [STAR] || action == wanted) && Covers(pattern, resource);
      PairIsIndex(scope, action, pattern);
      PairIsIndex(required, wanted, resource);
      assert pattern == scope[|action| + 1..] && resource == required[|wanted| + 1..];
      ResourceMatchesIsCovers(pattern, resource);
    }
  }

  /** access_one_scope_allows computes what a grant means. */
  lemma {:induction false} OneScopeMeans(scope: CString, required: CString)
    ensures OneScopeAllows(scope, required) <==> Grants(scope, required)
  {
    if OneScopeAllows(scope, required) {
      AllowedIsGranted(scope, required);
    }
    if Grants(scope, required) {
      GrantedIsAllowed(scope, required);
    }
  }

  // ---------------------------------------------------------------- the list

  /** The parts between commas; there is always at least one. */
  function Split(token: Bytes): seq<Bytes>
    decreases |token|
  {
    match IndexOf(token, COMMA)
    case None => [token]
    case Some(i) => [token[..i]] + Split(token[i + 1..])
  }

  /** A grant list allows a request when one of its parts grants it. */
  ghost predicate Allows(token: Bytes, required: Bytes) {
    required != [] && exists part :: part in Split(token) && Grants(part, required)
  }

  lemma {:induction false} SplitAt(token: Bytes, i: nat)
    requires i < |token| && token[i] == COMMA && COMMA !in token[..i]
    ensures Split(token) == [token[..i]] + Split(token[i + 1..])
  {
    FirstIndex(token, COMMA, i);
  }

  lemma {:induction false} SplitJoin(a: Bytes, b: Bytes)
    ensures Split(a + [COMMA] + b) == Split(a) + Split(b)
    decreases |a|
  {
    var whole := a + [COMMA] + b;
    match IndexOf(a, COMMA)
    case None =>
      assert whole[..|a|] == a && whole[|a| + 1..] == b;
      SplitAt(whole, |a|);
    case Some(i) =>
      var head, tail := a[..i], a[i + 1..];
      assert whole[..i] == head && whole[i + 1..] == tail + [COMMA] + b;
      SplitAt(whole, i);
      SplitJoin(tail, b);
      Prepended(head, Split(tail), Split(b));
  }

  lemma {:induction false} Prepended(head: Bytes, a: seq<Bytes>, b: seq<Bytes>)
    ensures [head] + (a + b) == [head] + a + b
  {
  }

  /** Joining two grant lists with a comma allows exactly what either does. */
  lemma {:induction false} JoinedGrants(a: Bytes, b: Bytes, required: Bytes)
    ensures Allows(a + [COMMA] + b, required) <==> Allows(a, required) || Allows(b, required)
  {
    SplitJoin(a, b);
  }

  /** access_scope_allows: a cursor moves from comma to comma. */
  method ScopeAllows(token: CString, required: CString) returns (allowed: bool)
    ensures allowed <==> Allows(token, required)
  {
    if token == [] || required == [] {
      NoEmptyGrant(required);
      return false;
    }
    var cursor := 0;
    while cursor < |token|
      invariant 0 <= cursor <= |token|
      invariant Allows(token, required) <==> Allows(token[cursor..], required)
      decreases |token| - cursor
    {
      var rest: CString := token[cursor..];
      var comma := IndexOf(rest, COMMA);
      var length := if comma.Some? then comma.value else |rest|;
      OneScopeMeans(rest[..length], required);
      PartsOf(rest, required);
      if OneScopeAllows(rest[..length], required) {
        return true;
      }
      if comma == None {
        return false;
      }
      assert rest[length + 1..] == token[cursor + length + 1..];
      cursor := cursor + length + 1;
    }
    assert token[cursor..] == [];
    NoEmptyGrant(required);
    return false;
  }

  lemma {:induction false} NoEmptyGrant(required: CString)
    ensures !Allows([], required)
  {
    OneScopeMeans([], required);
    assert Split([]) == [[]];
  }

  /** A list grants what its first part or the rest of the list grants. */
  lemma {:induction false} PartsOf(rest: Bytes, required: Bytes)
    requires required != []
    ensures match IndexOf(rest, COMMA)
            case None => rest[..|rest|] == rest && (Allows(rest, required) <==> Grants(rest, required))
            case Some(i) => Allows(rest, required) <==> Grants(rest[..i], required) || Allows(rest[i + 1..], required)
  {
    match IndexOf(rest, COMMA)
    case None => LastPart(rest, required);
    case Some(i) => FirstPart(rest, i, required);
  }

  lemma {:induction false} LastPart(rest: Bytes, required: Bytes)
    requires required != [] && IndexOf(rest, COMMA) == None
    ensures rest[..|rest|] == rest && (Allows(rest, required) <==> Grants(rest, required))
  {
    assert [rest] == [rest] + [];
    SomePartGrants([rest], rest, [], required);
  }

  lemma {:induction false} FirstPart(rest: Bytes, i: nat, required: Bytes)
    requires required != [] && IndexOf(rest, COMMA) == Some(i)
    ensures Allows(rest, required) <==> Grants(rest[..i], required) || Allows(rest[i + 1..], required)
  {
    SomePartGrants(Split(rest), rest[..i], Split(rest[i + 1..]), required);
  }

  lemma {:induction false} SomePartGrants(parts: seq<Bytes>, head: Bytes, tail: seq<Bytes>, required: Bytes)
    requires parts == [head] + tail
    ensures (exists part :: part in parts && Grants(part, required))
       <==> Grants(head, required) || exists part :: part in tail && Grants(part, required)
  {
    assert forall part :: part in parts <==> part == head || part in tail;
  }
}
