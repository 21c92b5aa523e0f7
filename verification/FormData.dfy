/** The form-body parser of the gate server and the hexadecimal session-id printer. */
module FormData {
  import opened Wrappers
  import opened Text

  /** The parameters of a form body. */
  type Table = map<string, string>
  type StoreFunction = (string, Table) -> Option<Table>

  /** A byte string: every C++ char read as 0..255. */
  predicate IsBytes(s: string) {
    forall i :: 0 <= i < |s| ==> s[i] as int < 256
  }

  /** `static_cast<char>` of an int. */
  function ToByte(n: int): char {
    (n % 256) as char
  }

  /** What percent decoding makes of a suffix of the value; None is the exception of std::stoi. */
  function Decode(value: string): Option<string> {
    if value == "" then Some("")
    else if value[0] == '%' && |value| > 2 then
      var n := Stoi(value[1..3], 16);
      if n.None? then None else Prepend(ToByte(n.value), Decode(value[3..]))
    else Prepend(if value[0] == '+' then ' ' else value[0], Decode(value[1..]))
  }

  function Prepend(c: char, rest: Option<string>): Option<string> {
    if rest.None? then None else Some([c] + rest.value)
  }

  function Append(done: string, rest: Option<string>): Option<string> {
    if rest.None? then None else Some(done + rest.value)
  }

  lemma AppendLaws(done: string, c: char, rest: Option<string>)
    ensures Append("", rest) == rest
    ensures Append(done, Prepend(c, rest)) == Append(done + [c], rest)
  {
    if rest.Some? {
      assert "" + rest.value == rest.value;
      assert done + ([c] + rest.value) == done + [c] + rest.value;
    }
  }

  /** Decoding from position i on, by positions. */
  lemma DecodeAt(value: string, i: nat)
    requires i < |value|
    ensures Decode(value[i..]) ==
            if value[i] == '%' && i + 2 < |value| then
              var n := Stoi(value[i + 1..i + 3], 16);
              if n.None? then None else Prepend(ToByte(n.value), Decode(value[i + 3..]))
            else Prepend(if value[i] == '+' then ' ' else value[i], Decode(value[i + 1..]))
  {
    hide Stoi;
    var rest := value[i..];
    assert rest[1..] == value[i + 1..];
    if i + 2 < |value| {
      assert rest[1..3] == value[i + 1..i + 3] && rest[3..] == value[i + 3..];
    }
  }

  lemma DecodeEnd(decoded: string)
    ensures Append(decoded, Decode("")) == Some(decoded)
  {
    assert decoded + "" == decoded;
  }

  method DecodeValue(value: string) returns (r: Option<string>)
    ensures r == Decode(value)
  {
    hide Decode, Prepend, Stoi, ToByte;
    var decoded := "";
    var i := 0;
    assert value[0..] == value;
    AppendLaws("", ' ', Decode(value));
    while i < |value|
      invariant 0 <= i <= |value|
      invariant Decode(value) == Append(decoded, Decode(value[i..]))
    {
      DecodeAt(value, i);
      if value[i] == '%' && i + 2 < |value| {
        var n := Stoi(value[i + 1..i + 3], 16);
        if n.None? {
          return None;
        }
        AppendLaws(decoded, ToByte(n.value), Decode(value[i + 3..]));
        decoded := decoded + [ToByte(n.value)];
        i := i + 2;
      } else {
        var c := if value[i] == '+' then ' ' else value[i];
        AppendLaws(decoded, c, Decode(value[i + 1..]));
        decoded := decoded + [c];
      }
      i := i + 1;
    }
    assert value[i..] == "";
    DecodeEnd(decoded);
    return Some(decoded);
  }

  /** The end of the parameter that starts at `pos`. */
  function ParamEnd(body: string, pos: nat): (next: nat)
    requires pos <= |body|
    ensures pos <= next <= |body|
  {
    var r := Find(body, '&', pos);
    if r.Some? then r.value else |body|
  }

  /** What one parameter does to the table: nothing without '=', otherwise the key is set. */
  function StoreParam(param: string, params: Table): Option<Table> {
    var eq := Find(param, '=', 0);
    if eq.None? then Some(params)
    else
      var value := Decode(param[eq.value + 1..]);
      if value.None? then None else Some(params[param[..eq.value] := value.value])
  }

  /**
    The table the scan builds from the parameters that start at `pos` or later. It is defined, and taken
    apart below, for any way `store` of storing one parameter; the source's way is StoreParam.
  */
  function Scan(body: string, pos: nat, params: Table, store: StoreFunction): Option<Table>
    decreases |body| - pos
  {
    if pos >= |body| then Some(params)
    else
      var next := ParamEnd(body, pos);
      var stored := store(body[pos..next], params);
      if stored.None? then None else Scan(body, next + 1, stored.value, store)
  }

  function Parse(body: string): Option<Table> {
    Scan(body, 0, map[], StoreParam)
  }

  method StoreDecoded(param: string, params: Table) returns (r: Option<Table>)
    ensures r == StoreParam(param, params)
  {
    hide Decode;
    var eq := Find(param, '=', 0);
    if eq.None? {
      return Some(params);
    }
    var key := param[..eq.value];
    var decoded := DecodeValue(param[eq.value + 1..]);
    if decoded.None? {
      return None;
    }
    return Some(params[key := decoded.value]);
  }

  lemma ScanStep(body: string, pos: nat, next: nat, param: string, params: Table, store: StoreFunction)
    requires pos < |body| && next == ParamEnd(body, pos) && param == body[pos..next]
    ensures Scan(body, pos, params, store) ==
            if store(param, params).None? then None else Scan(body, next + 1, store(param, params).value, store)
  {
  }

  /** One turn of the loop: the parameter at `pos` is stored, unless its value cannot be decoded. */
  method ParseNext(body: string, pos: nat, params: Table) returns (next: nat, stored: Option<Table>)
    requires pos < |body|
    ensures pos <= next <= |body|
    ensures Scan(body, pos, params, StoreParam) ==
            if stored.None? then None else Scan(body, next + 1, stored.value, StoreParam)
  {
    hide StoreParam, Scan;
    var found := Find(body, '&', pos);
    next := if found.Some? then found.value else |body|;
    var param := body[pos..next];
    ScanStep(body, pos, next, param, params, StoreParam);
    stored := StoreDecoded(param, params);
  }

  method ParsePostData(body: string) returns (r: Option<Table>)
    ensures r == Parse(body)
  {
    hide StoreParam;
    var params: Table := map[];
    var pos := 0;
    while pos < |body|
      invariant 0 <= pos
      invariant Parse(body) == Scan(body, pos, params, StoreParam)
    {
      var next, stored := ParseNext(body, pos, params);
      if stored.None? {
        return None;
      }
      params := stored.value;
      pos := next + 1;
    }
    return Some(params);
  }

  // ---- The round trip --------------------------------------------------------------------------

  /**
    A form encoder in the sense of section 17.13.4.1 of HTML 4.01 and section 2.1 of RFC 3986: '+' for
    a space, any choice of literal characters that leaves out '%', '+' and '&', %hh for the rest.
  */
  function EncodeChar(c: char, literal: char -> bool): string
    requires c as int < 256
  {
    if c == ' ' then "+" else if literal(c) then [c] else "%" + Hex2(c as int)
  }

  function Encode(value: string, literal: char -> bool): string
    requires IsBytes(value)
  {
    if value == "" then "" else EncodeChar(value[0], literal) + Encode(value[1..], literal)
  }

  ghost predicate Reserved(literal: char -> bool) {
    !literal('%') && !literal('+') && !literal('&')
  }

  ghost predicate Encodable(pairs: seq<(string, string)>) {
    forall i :: 0 <= i < |pairs| ==> '&' !in pairs[i].0 && '=' !in pairs[i].0 && IsBytes(pairs[i].1)
  }

  function EncodePair(pair: (string, string), literal: char -> bool): string
    requires IsBytes(pair.1)
  {
    pair.0 + "=" + Encode(pair.1, literal)
  }

  function EncodeForm(pairs: seq<(string, string)>, literal: char -> bool): string
    requires forall i :: 0 <= i < |pairs| ==> IsBytes(pairs[i].1)
  {
    Join(EncodePairs(pairs, literal))
  }

  function EncodePairs(pairs: seq<(string, string)>, literal: char -> bool): (ps: seq<string>)
    requires forall i :: 0 <= i < |pairs| ==> IsBytes(pairs[i].1)
  {
    seq(|pairs|, i requires 0 <= i < |pairs| => EncodePair(pairs[i], literal))
  }

  function Join(params: seq<string>): string {
    if params == [] then "" else if |params| == 1 then params[0] else params[0] + "&" + Join(params[1..])
  }

  /** Storing the parameters one after the other; the first exception ends it. */
  function StoreEach(ps: seq<string>, params: Table, store: StoreFunction): Option<Table> {
    if ps == [] then Some(params)
    else
      var stored := store(ps[0], params);
      if stored.None? then None else StoreEach(ps[1..], stored.value, store)
  }

  /** `params` overwritten by the pairs in order. */
  function StoreAll(pairs: seq<(string, string)>, params: Table): Table {
    if pairs == [] then params else StoreAll(pairs[1..], params[pairs[0].0 := pairs[0].1])
  }

  lemma DecodePercent(b: nat, rest: string)
    requires b < 256
    ensures Decode("%" + Hex2(b) + rest) == Prepend(b as char, Decode(rest))
  {
    hide Stoi, Hex2;
    var e := "%" + Hex2(b) + rest;
    Hex2RoundTrip(b);
    assert e[1..3] == Hex2(b) && e[3..] == rest;
  }

  lemma DecodePlain(c: char, rest: string)
    requires c != '%'
    ensures Decode([c] + rest) == Prepend(if c == '+' then ' ' else c, Decode(rest))
  {
    assert ([c] + rest)[1..] == rest;
  }

  /** An encoded front decodes to what it encodes, whatever follows. */
  lemma {:induction false} DecodeFront(value: string, literal: char -> bool, rest: string)
    requires IsBytes(value) && Reserved(literal)
    ensures Decode(Encode(value, literal) + rest) == Append(value, Decode(rest))
  {
    if value == "" {
      assert "" + rest == rest;
      AppendLaws("", ' ', Decode(rest));
    } else {
      var c, more := value[0], Encode(value[1..], literal) + rest;
      DecodeFront(value[1..], literal, rest);
      assert Encode(value, literal) + rest == EncodeChar(c, literal) + more;
      assert [c] + value[1..] == value;
      DecodeChar(c, literal, more);
      PrependAppend(c, value[1..], Decode(rest));
    }
  }

  lemma DecodeChar(c: char, literal: char -> bool, rest: string)
    requires c as int < 256 && Reserved(literal)
    ensures Decode(EncodeChar(c, literal) + rest) == Prepend(c, Decode(rest))
  {
    if c == ' ' {
      DecodePlain('+', rest);
    } else if literal(c) {
      DecodePlain(c, rest);
    } else {
      DecodePercent(c as int, rest);
    }
  }

  lemma PrependAppend(c: char, done: string, rest: Option<string>)
    ensures Prepend(c, Append(done, rest)) == Append([c] + done, rest)
  {
    if rest.Some? {
      assert [c] + (done + rest.value) == [c] + done + rest.value;
    }
  }

  /** Decoding undoes every such encoding of every byte string. */
  lemma DecodeEncode(value: string, literal: char -> bool)
    requires IsBytes(value) && Reserved(literal)
    ensures Decode(Encode(value, literal)) == Some(value)
  {
    DecodeFront(value, literal, "");
    assert Encode(value, literal) + "" == Encode(value, literal) && value + "" == value;
  }

  lemma ShortEscapes(c: char)
    requires c != '%' && c != '+'
    ensures Decode("%") == Some("%") && Decode(['%', c]) == Some(['%', c])
  {
    hide Stoi;
    var s, t := [c], ['%', c];
    assert "%"[1..] == "" && s[1..] == "" && t[1..] == s;
    assert Decode("") == Some("") && [c] + "" == s && ['%'] + "" == "%" && ['%'] + s == t;
    assert Decode("%") == Prepend('%', Decode(""));
    assert Decode(s) == Prepend(c, Decode(""));
    assert Decode(t) == Prepend('%', Decode(s));
  }

  /** A '%' with fewer than two characters after it stands for itself; one that stoi cannot read is the exception. */
  lemma BrokenEscapes(value: string, literal: char -> bool, c: char, bad: string, rest: string)
    requires IsBytes(value) && Reserved(literal) && c != '%' && c != '+'
    requires |bad| == 2 && Stoi(bad, 16) == None
    ensures Decode(Encode(value, literal) + "%") == Some(value + "%")
    ensures Decode(Encode(value, literal) + ['%', c]) == Some(value + ['%', c])
    ensures Decode(Encode(value, literal) + ("%" + bad + rest)) == None
  {
    hide Stoi;
    DecodeFront(value, literal, "%");
    DecodeFront(value, literal, ['%', c]);
    DecodeFront(value, literal, "%" + bad + rest);
    ShortEscapes(c);
    assert ("%" + bad + rest)[1..3] == bad;
  }

  lemma {:induction false} EncodeHasNoSeparator(value: string, literal: char -> bool)
    requires IsBytes(value) && Reserved(literal)
    ensures '&' !in Encode(value, literal)
  {
    if value != "" {
      EncodeHasNoSeparator(value[1..], literal);
    }
  }

  lemma StoreEncodedPair(pair: (string, string), literal: char -> bool, params: Table)
    requires '=' !in pair.0 && IsBytes(pair.1) && Reserved(literal)
    ensures StoreParam(EncodePair(pair, literal), params) == Some(params[pair.0 := pair.1])
  {
    var param := EncodePair(pair, literal);
    FindUnique(param, '=', 0, |pair.0|);
    assert param[..|pair.0|] == pair.0 && param[|pair.0| + 1..] == Encode(pair.1, literal);
    DecodeEncode(pair.1, literal);
  }

  /** One parameter of the body, ended by '&' or by the end of the body. */
  lemma ParamEndsAt(body: string, pos: nat, param: string)
    requires '&' !in param && pos + |param| <= |body| && body[pos..pos + |param|] == param
    requires pos + |param| < |body| ==> body[pos + |param|] == '&'
    ensures ParamEnd(body, pos) == pos + |param|
  {
    assert forall k :: pos <= k < pos + |param| ==> body[k] == param[k - pos];
    if pos + |param| < |body| {
      FindUnique(body, '&', pos, pos + |param|);
    }
  }

  lemma JoinSplit(ps: seq<string>)
    requires ps != []
    ensures |ps[0]| <= |Join(ps)| && Join(ps)[..|ps[0]|] == ps[0]
    ensures |ps| == 1 ==> |Join(ps)| == |ps[0]|
    ensures |ps| > 1 ==> |ps[0]| < |Join(ps)| && Join(ps)[|ps[0]|] == '&' && Join(ps)[|ps[0]| + 1..] == Join(ps[1..])
  {
  }

  /** Where the first parameter of a joined rest ends, and what is left after it. */
  lemma FirstParam(body: string, pos: nat, ps: seq<string>)
    requires ps != [] && '&' !in ps[0] && pos <= |body| && body[pos..] == Join(ps)
    ensures var next := ParamEnd(body, pos);
            && body[pos..next] == ps[0]
            && (|ps| == 1 ==> next == |body|)
            && (|ps| > 1 ==> next < |body| && body[next + 1..] == Join(ps[1..]))
  {
    hide Join, ParamEnd;
    var rest, next := body[pos..], pos + |ps[0]|;
    JoinSplit(ps);
    assert body[pos..next] == rest[..|ps[0]|];
    assert next < |body| ==> body[next] == rest[|ps[0]|];
    ParamEndsAt(body, pos, ps[0]);
    assert |ps| > 1 ==> body[next + 1..] == rest[|ps[0]| + 1..];
  }

  lemma ScanEnd(body: string, pos: nat, params: Table, store: StoreFunction)
    requires pos >= |body|
    ensures Scan(body, pos, params, store) == Some(params)
  {
  }

  lemma StoreEachFirst(ps: seq<string>, params: Table, store: StoreFunction)
    requires ps != []
    ensures var stored := store(ps[0], params);
            StoreEach(ps, params, store) ==
              if stored.None? then None else if |ps| == 1 then stored else StoreEach(ps[1..], stored.value, store)
  {
    if |ps| == 1 {
      assert ps[1..] == [];
    }
  }

  /** The scan takes a body apart at the separators, whatever is done with the parameters. */
  lemma {:induction false} ScanTakesApart(body: string, pos: nat, ps: seq<string>, params: Table, store: StoreFunction)
    requires (forall i :: 0 <= i < |ps| ==> '&' !in ps[i]) && forall p :: store("", p) == Some(p)
    requires pos <= |body| && body[pos..] == Join(ps)
    ensures Scan(body, pos, params, store) == StoreEach(ps, params, store)
    decreases |ps|
  {
    if ps == [] {
      assert body[pos..] == "";
    } else {
      hide Join, ParamEnd, Scan, StoreEach;
      StoreEachFirst(ps, params, store);
      var next := ParamEnd(body, pos);
      FirstParam(body, pos, ps);
      if pos == |body| {
        assert ps[0] == "" && ps[1..] == [];
        ScanEnd(body, pos, params, store);
      } else {
        ScanStep(body, pos, next, ps[0], params, store);
        var stored := store(ps[0], params);
        if |ps| == 1 {
          assert ps[1..] == [];
          if stored.Some? {
            ScanEnd(body, next + 1, stored.value, store);
          }
        } else if stored.Some? {
          ScanTakesApart(body, next + 1, ps[1..], stored.value, store);
        }
      }
    }
  }

  /** Parsing stores the parameters between the separators one after the other, empty ones included. */
  lemma ParseJoined(ps: seq<string>)
    requires forall i :: 0 <= i < |ps| ==> '&' !in ps[i]
    ensures Parse(Join(ps)) == StoreEach(ps, map[], StoreParam)
  {
    ScanTakesApart(Join(ps), 0, ps, map[], StoreParam);
  }

  lemma {:induction false} StoreEncodedPairs(pairs: seq<(string, string)>, literal: char -> bool, params: Table)
    requires Encodable(pairs) && Reserved(literal)
    ensures StoreEach(EncodePairs(pairs, literal), params, StoreParam) == Some(StoreAll(pairs, params))
    decreases |pairs|
  {
    if pairs != [] {
      var stored := params[pairs[0].0 := pairs[0].1];
      StoreEncodedPair(pairs[0], literal, params);
      assert EncodePairs(pairs, literal)[1..] == EncodePairs(pairs[1..], literal);
      StoreEncodedPairs(pairs[1..], literal, stored);
    }
  }

  /** Parsing an encoded form gives back the table the pairs describe. */
  lemma FormRoundTrip(pairs: seq<(string, string)>, literal: char -> bool)
    requires Encodable(pairs) && Reserved(literal)
    ensures Parse(EncodeForm(pairs, literal)) == Some(StoreAll(pairs, map[]))
  {
    var ps := EncodePairs(pairs, literal);
    forall i | 0 <= i < |ps| ensures '&' !in ps[i] {
      EncodeHasNoSeparator(pairs[i].1, literal);
    }
    ParseJoined(ps);
    StoreEncodedPairs(pairs, literal, map[]);
  }

  /** A parameter without '=' says nothing: a body parses as if it were not there. */
  lemma {:induction false} BareParamsIgnored(ps: seq<string>, bare: string, more: seq<string>, params: Table)
    requires '=' !in bare
    ensures StoreEach(ps + [bare] + more, params, StoreParam) == StoreEach(ps + more, params, StoreParam)
    decreases |ps|
  {
    hide Decode;
    if ps == [] {
      assert [] + [bare] + more == [bare] + more && ([bare] + more)[1..] == more && [] + more == more;
    } else {
      assert (ps + [bare] + more)[1..] == ps[1..] + [bare] + more && (ps + more)[1..] == ps[1..] + more;
      var stored := StoreParam(ps[0], params);
      if stored.Some? {
        BareParamsIgnored(ps[1..], bare, more, stored.value);
      }
    }
  }

  /** ... and that table is last-wins: a key has the value of the last pair that names it. */
  lemma {:induction false} StoreAllLastWins(pairs: seq<(string, string)>, params: Table, k: string)
    ensures k in StoreAll(pairs, params) <==> k in params || exists i :: 0 <= i < |pairs| && pairs[i].0 == k
    ensures forall i :: 0 <= i < |pairs| && pairs[i].0 == k && (forall j :: i < j < |pairs| ==> pairs[j].0 != k)
              ==> StoreAll(pairs, params)[k] == pairs[i].1
    ensures k in params && (forall j :: 0 <= j < |pairs| ==> pairs[j].0 != k) ==> StoreAll(pairs, params)[k] == params[k]
    decreases |pairs|
  {
    if pairs != [] {
      var rest, first := pairs[1..], params[pairs[0].0 := pairs[0].1];
      StoreAllLastWins(rest, first, k);
      assert forall i :: 1 <= i < |pairs| ==> pairs[i] == rest[i - 1];
    }
  }

  // ---- Session ids -----------------------------------------------------------------------------

  function SessionId(buffer: seq<nat>): (id: string)
    requires forall i :: 0 <= i < |buffer| ==> buffer[i] < 256
    ensures |id| == 2 * |buffer|
  {
    if buffer == [] then "" else SessionId(buffer[..|buffer| - 1]) + Hex2(buffer[|buffer| - 1])
  }

  lemma SessionIdSplit(a: seq<nat>)
    requires a != [] && forall i :: 0 <= i < |a| ==> a[i] < 256
    ensures var n := |a| - 1; SessionId(a)[..2 * n] == SessionId(a[..n]) && SessionId(a)[2 * n..] == Hex2(a[n])
  {
    assert SessionId(a) == SessionId(a[..|a| - 1]) + Hex2(a[|a| - 1]);
  }

  /** The digits of byte i stand at 2 * i. */
  lemma {:induction false} SessionIdAt(a: seq<nat>, i: nat)
    requires i < |a| && forall j :: 0 <= j < |a| ==> a[j] < 256
    ensures SessionId(a)[2 * i..2 * i + 2] == Hex2(a[i])
    decreases |a|
  {
    hide SessionId, Hex2;
    var n := |a| - 1;
    SessionIdSplit(a);
    if i < n {
      SessionIdAt(a[..n], i);
      assert SessionId(a)[2 * i..2 * i + 2] == SessionId(a)[..2 * n][2 * i..2 * i + 2];
    }
  }

  /** The hexadecimal branch of the generator: 32 random bytes give 64 digits, two for each in order. */
  method GenerateSessionId(buffer: seq<nat>) returns (id: string)
    requires |buffer| == 32 && forall i :: 0 <= i < |buffer| ==> buffer[i] < 256
    ensures |id| == 64 && id == SessionId(buffer)
    ensures forall i :: 0 <= i < 32 ==> id[2 * i..2 * i + 2] == Hex2(buffer[i])
  {
    id := "";
    for i := 0 to |buffer|
      invariant id == SessionId(buffer[..i])
    {
      assert buffer[..i + 1][..i] == buffer[..i];
      id := id + Hex2(buffer[i]);
    }
    assert buffer[..|buffer|] == buffer;
    forall i | 0 <= i < 32 ensures id[2 * i..2 * i + 2] == Hex2(buffer[i]) {
      SessionIdAt(buffer, i);
    }
  }

  lemma Hex2Injective(a: nat, b: nat)
    requires a < 256 && b < 256 && Hex2(a) == Hex2(b)
    ensures a == b
  {
    Hex2RoundTrip(a);
    Hex2RoundTrip(b);
  }

  /** Different random bytes give different session ids. */
  lemma {:induction false} SessionIdInjective(a: seq<nat>, b: seq<nat>)
    requires forall i :: 0 <= i < |a| ==> a[i] < 256
    requires forall i :: 0 <= i < |b| ==> b[i] < 256
    requires SessionId(a) == SessionId(b)
    ensures a == b
    decreases |a|
  {
    hide SessionId, Hex2;
    assert |a| == |b|;
    if a != [] {
      var n := |a| - 1;
      SessionIdSplit(a);
      SessionIdSplit(b);
      Hex2Injective(a[n], b[n]);
      SessionIdInjective(a[..n], b[..n]);
      assert a == a[..n] + [a[n]] && b == b[..n] + [b[n]];
    }
  }
}
