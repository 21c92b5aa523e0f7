/** Login tokens: how one is made, accepted, and found again in a WebSocket handshake. */
module Token {
  import opened Wrappers
  import opened Text

  const PREFIX := "token_"
  const PARAMETER := "token="

  /** The printed form; `nanoseconds` is the clock reading and `salt` the random number. */
  function GenerateToken(userId: string, nanoseconds: int, salt: int): string {
    PREFIX + userId + "_" + ToDecimal(nanoseconds) + "_" + ToDecimal(salt)
  }

  /** The tokens a user id may be read from: "token_" + u + "_" + x with u non-empty and '_'-free, and '_' in x. */
  ghost predicate TokenOf(token: string, u: string) {
    u != "" && Spells(token, u)
  }

  /** The same without the demand on u to be non-empty. */
  ghost predicate Spells(token: string, u: string) {
    '_' !in u && exists x: string :: '_' in x && token == PREFIX + u + "_" + x
  }

  /** A token by the positions of its second and third underscore. */
  lemma TokenAt(token: string, second: nat, third: nat)
    requires 6 <= second < third < |token| && token[..6] == PREFIX && token[second] == '_' && token[third] == '_'
    requires forall k :: 6 <= k < second ==> token[k] != '_'
    ensures Spells(token, token[6..second])
  {
    var u, x := token[6..second], token[second + 1..];
    assert x[third - second - 1] == '_';
    assert token == PREFIX + u + "_" + x;
  }

  /**
    `verify_token`; the second result is the out-parameter. A rejection leaves it alone, except that a
    token spelled with an empty user id empties it.
  */
  method VerifyToken(token: string, userIdBefore: string) returns (ok: bool, userId: string)
    ensures ok ==> TokenOf(token, userId)
    ensures !ok ==> forall u: string :: !TokenOf(token, u)
    ensures !ok ==> userId == if Spells(token, "") then "" else userIdBefore
  {
    hide Spells;
    ok, userId := false, userIdBefore;
    if token == "" {
      NotAToken(token);
      return;
    }
    if !(|token| >= 6 && token[..6] == PREFIX) {
      NotAToken(token);
      return;
    }
    FindUnique(token, '_', 0, 5);
    var first := Find(token, '_', 0);
    var second := Find(token, '_', first.value + 1);
    if second.None? {
      FewUnderscores(token, |token|);
      return;
    }
    var third := Find(token, '_', second.value + 1);
    if third.None? {
      FewUnderscores(token, second.value);
      return;
    }
    userId := token[first.value + 1..second.value];
    TokenAt(token, second.value, third.value);
    if userId == "" {
      EmptyUser(token);
      return;
    }
    ok := true;
  }

  /** What the spelling says about single characters. */
  lemma TokenLayout(token: string, u: string)
    requires Spells(token, u)
    ensures |token| > 6 + |u| + 1 && token[..6] == PREFIX
    ensures forall k :: 0 <= k < |u| ==> token[6 + k] == u[k] && token[6 + k] != '_'
    ensures token[6 + |u|] == '_' && exists k :: 6 + |u| < k < |token| && token[k] == '_'
  {
    var x: string :| '_' in x && token == PREFIX + u + "_" + x;
    var k :| 0 <= k < |x| && x[k] == '_';
    assert token[7 + |u| + k] == '_';
  }

  lemma NotAToken(token: string)
    requires !(|token| >= 6 && token[..6] == PREFIX)
    ensures forall u: string :: !Spells(token, u)
  {
    forall u: string | Spells(token, u) ensures false {
      TokenLayout(token, u);
    }
  }

  lemma FewUnderscores(token: string, second: nat)
    requires 6 <= second <= |token|
    requires forall k :: 6 <= k < |token| && k != second ==> token[k] != '_'
    ensures forall u: string :: !Spells(token, u)
  {
    forall u: string | Spells(token, u) ensures false {
      TokenLayout(token, u);
    }
  }

  lemma EmptyUser(token: string)
    requires |token| > 6 && token[6] == '_'
    ensures forall u: string :: !TokenOf(token, u)
  {
    forall u: string | TokenOf(token, u) ensures false {
      TokenLayout(token, u);
    }
  }

  /** A token names at most one user. */
  lemma TokenOfUnique(token: string, u: string, v: string)
    requires TokenOf(token, u) && TokenOf(token, v)
    ensures u == v
  {
    TokenLayout(token, u);
    TokenLayout(token, v);
    assert |u| == |v|;
    assert u == token[6..6 + |u|] && v == token[6..6 + |v|];
  }

  lemma DecimalIsPlain(n: int)
    ensures '_' !in ToDecimal(n) && '&' !in ToDecimal(n)
  {
  }

  /** Every generated token for a decimal user id is a token of that id. */
  lemma GeneratedTokenNamesUser(id: int, nanoseconds: int, salt: int)
    ensures TokenOf(GenerateToken(ToDecimal(id), nanoseconds, salt), ToDecimal(id))
    ensures '&' !in GenerateToken(ToDecimal(id), nanoseconds, salt)
  {
    var u, n, s := ToDecimal(id), ToDecimal(nanoseconds), ToDecimal(salt);
    DecimalIsPlain(id);
    DecimalIsPlain(nanoseconds);
    DecimalIsPlain(salt);
    var x := n + "_" + s;
    assert x[|n|] == '_';
    assert PREFIX + u + "_" + n + "_" + s == PREFIX + u + "_" + x;
  }

  // ---- The handshake -----------------------------------------------------------------------------

  /** The text of the first `token=` parameter of a request target, up to '&' or the end. */
  function TargetToken(target: string): string {
    var at := FindText(target, PARAMETER, 0);
    if at.None? then ""
    else
      var end := Find(target, '&', at.value);
      ParameterHasNoAmpersand(target, at.value);
      target[at.value + 6..if end.Some? then end.value else |target|]
  }

  /** The token the handshake uses: target, then "Authorization: Bearer ", then "Token". */
  function HandshakeToken(target: string, authorization: Option<string>, tokenHeader: Option<string>): string {
    var t := TargetToken(target);
    var a := if t == "" && authorization.Some? && |authorization.value| > 7 && authorization.value[..7] == "Bearer "
             then authorization.value[7..] else t;
    if a == "" && tokenHeader.Some? then tokenHeader.value else a
  }

  /** The session's user id after the handshake: set when a token is accepted, untouched otherwise. */
  method VerifyHandshake(target: string, authorization: Option<string>, tokenHeader: Option<string>, userBefore: string)
    returns (valid: bool, user: string)
    ensures valid <==> exists u: string :: TokenOf(HandshakeToken(target, authorization, tokenHeader), u)
    ensures valid ==> TokenOf(HandshakeToken(target, authorization, tokenHeader), user)
    ensures !valid ==> user == userBefore
  {
    user := userBefore;
    var token := "";
    var tokenPos := FindText(target, PARAMETER, 0);
    if tokenPos.Some? {
      ParameterHasNoAmpersand(target, tokenPos.value);
      var tokenEnd := Find(target, '&', tokenPos.value);
      token := target[tokenPos.value + 6..if tokenEnd.Some? then tokenEnd.value else |target|];
    }
    if token == "" && authorization.Some? {
      var header := authorization.value;
      if |header| > 7 && header[..7] == "Bearer " {
        token := header[7..];
      }
    }
    if token == "" && tokenHeader.Some? {
      token := tokenHeader.value;
    }
    assert token == HandshakeToken(target, authorization, tokenHeader);
    if token == "" {
      NotAToken(token);
      return false, user;
    }
    var userId;
    valid, userId := VerifyToken(token, "");
    if valid {
      user := userId;
    }
  }

  lemma ParameterHasNoAmpersand(target: string, at: nat)
    requires OccursAt(target, PARAMETER, at)
    ensures var end := Find(target, '&', at); end.Some? ==> end.value >= at + 6
  {
    forall k | at <= k < at + 6 ensures target[k] != '&' {
      assert target[k] == target[at..at + 6][k - at];
    }
  }

  /** "token=" cannot overlap itself, so a prefix without it leaves the next one first. */
  lemma FirstParameter(prefix: string, rest: string)
    requires forall k: nat :: !OccursAt(prefix, PARAMETER, k)
    ensures FindText(prefix + PARAMETER + rest, PARAMETER, 0) == Some(|prefix|)
  {
    var target, n := prefix + PARAMETER + rest, |prefix|;
    assert target[n..n + 6] == PARAMETER && target[n] == 't';
    forall k: nat | k < n ensures !OccursAt(target, PARAMETER, k) {
      if k + 6 <= n {
        assert prefix[k..k + 6] == target[k..k + 6];
        assert !OccursAt(prefix, PARAMETER, k);
      } else {
        assert target[k..k + 6][n - k] == 't';
        assert PARAMETER[n - k] != 't';
      }
    }
    assert OccursAt(target, PARAMETER, n);
  }

  /** A token without '&' that follows the first parameter is read whole. */
  lemma TargetTokenIsWhole(prefix: string, token: string, suffix: string)
    requires forall k: nat :: !OccursAt(prefix, PARAMETER, k)
    requires '&' !in token && (suffix == "" || suffix[0] == '&')
    ensures TargetToken(prefix + PARAMETER + (token + suffix)) == token
  {
    var target, n := prefix + PARAMETER + (token + suffix), |prefix|;
    FirstParameter(prefix, token + suffix);
    var end := n + 6 + |token|;
    assert target[n + 6..end] == token;
    forall k | n <= k < end ensures target[k] != '&' {
      if k < n + 6 {
        assert target[k] == PARAMETER[k - n];
      } else {
        assert target[k] == token[k - n - 6];
      }
    }
    if suffix != "" {
      FindUnique(target, '&', n, end);
    }
  }

  /**
    The identity round trip: whatever the user id, clock, salt, headers and the text around it, a
    generated token placed in the query is the token the handshake reads, and it names that user only.
  */
  lemma TokenRoundTrip(id: int, nanoseconds: int, salt: int, prefix: string, suffix: string,
                       authorization: Option<string>, tokenHeader: Option<string>)
    requires forall k: nat :: !OccursAt(prefix, PARAMETER, k)
    requires suffix == "" || suffix[0] == '&'
    ensures var token := GenerateToken(ToDecimal(id), nanoseconds, salt);
            var read := HandshakeToken(prefix + PARAMETER + token + suffix, authorization, tokenHeader);
            read == token && forall u: string :: TokenOf(read, u) <==> u == ToDecimal(id)
  {
    var token := GenerateToken(ToDecimal(id), nanoseconds, salt);
    GeneratedTokenNamesUser(id, nanoseconds, salt);
    assert prefix + PARAMETER + token + suffix == prefix + PARAMETER + (token + suffix);
    TargetTokenIsWhole(prefix, token, suffix);
    forall u: string ensures TokenOf(token, u) <==> u == ToDecimal(id) {
      if TokenOf(token, u) {
        TokenOfUnique(token, u, ToDecimal(id));
      }
    }
  }

  /** Where the token of a handshake comes from: the first of target, bearer header and Token header that has one. */
  lemma HandshakeTokenSource(target: string, authorization: Option<string>, tokenHeader: Option<string>, bearer: string)
    ensures var read := HandshakeToken(target, authorization, tokenHeader);
            && (TargetToken(target) != "" ==> read == TargetToken(target))
            && (TargetToken(target) == "" && bearer != "" && authorization == Some("Bearer " + bearer) ==> read == bearer)
            && (TargetToken(target) == "" && (forall b: string :: b != "" ==> authorization != Some("Bearer " + b)) ==>
                  read == if tokenHeader.Some? then tokenHeader.value else "")
  {
    hide TargetToken;
    assert ("Bearer " + bearer)[..7] == "Bearer " && ("Bearer " + bearer)[7..] == bearer;
    if authorization.Some? {
      var a := authorization.value;
      assert |a| > 7 && a[..7] == "Bearer " ==> a == "Bearer " + a[7..];
    }
  }

  /** A target that nowhere says "token=" has no token. */
  lemma TargetWithoutToken(target: string)
    requires forall k: nat :: !OccursAt(target, PARAMETER, k)
    ensures TargetToken(target) == ""
  {
  }

  /** The identity round trip by header: a generated token sent either way names its user and no other. */
  lemma HeaderRoundTrip(id: int, nanoseconds: int, salt: int, target: string, tokenHeader: Option<string>)
    requires forall k: nat :: !OccursAt(target, PARAMETER, k)
    ensures var token := GenerateToken(ToDecimal(id), nanoseconds, salt);
            && HandshakeToken(target, Some("Bearer " + token), tokenHeader) == token
            && HandshakeToken(target, None, Some(token)) == token
            && forall u: string :: TokenOf(token, u) <==> u == ToDecimal(id)
  {
    var token := GenerateToken(ToDecimal(id), nanoseconds, salt);
    GeneratedTokenNamesUser(id, nanoseconds, salt);
    TargetWithoutToken(target);
    HandshakeTokenSource(target, Some("Bearer " + token), tokenHeader, token);
    HandshakeTokenSource(target, None, Some(token), token);
    forall u: string ensures TokenOf(token, u) <==> u == ToDecimal(id) {
      if TokenOf(token, u) {
        TokenOfUnique(token, u, ToDecimal(id));
      }
    }
  }

  /** A text is split in one way only at its first '_'. */
  lemma SplitUnique(a: string, b: string, x: string, y: string)
    requires '_' !in a && '_' !in b && a + "_" + x == b + "_" + y
    ensures a == b && x == y
  {
    var s := a + "_" + x;
    assert s[|a|] == '_' && s[|b|] == '_';
    assert forall k :: 0 <= k < |a| ==> s[k] == a[k];
    assert forall k :: 0 <= k < |b| ==> s[k] == b[k];
    assert |a| == |b|;
    assert a == s[..|a|] == b && x == s[|a| + 1..] == y;
  }

  lemma PrefixCancels(s: string, t: string)
    requires PREFIX + s == PREFIX + t
    ensures s == t
  {
    assert s == (PREFIX + s)[6..] && t == (PREFIX + t)[6..];
  }

  lemma TokenText(user: string, n: int, salt: int)
    ensures GenerateToken(user, n, salt) == PREFIX + (user + "_" + (ToDecimal(n) + "_" + ToDecimal(salt)))
  {
    hide ToDecimal;
  }

  /** Tokens made for different users, at different times or with different salts are different. */
  lemma GeneratedTokensDiffer(id: int, n: int, salt: int, id': int, n': int, salt': int)
    requires GenerateToken(ToDecimal(id), n, salt) == GenerateToken(ToDecimal(id'), n', salt')
    ensures id == id' && n == n' && salt == salt'
  {
    hide ToDecimal, GenerateToken;
    TokenText(ToDecimal(id), n, salt);
    TokenText(ToDecimal(id'), n', salt');
    DecimalIsPlain(id);
    DecimalIsPlain(id');
    DecimalIsPlain(n);
    DecimalIsPlain(n');
    var s, s' := ToDecimal(n) + "_" + ToDecimal(salt), ToDecimal(n') + "_" + ToDecimal(salt');
    PrefixCancels(ToDecimal(id) + "_" + s, ToDecimal(id') + "_" + s');
    SplitUnique(ToDecimal(id), ToDecimal(id'), s, s');
    SplitUnique(ToDecimal(n), ToDecimal(n'), ToDecimal(salt), ToDecimal(salt'));
    DecimalInjective(id, id');
    DecimalInjective(n, n');
    DecimalInjective(salt, salt');
  }
}
