/**
 * What the recursive-descent parser of jansson/load.c computes, as functions of the current token
 * and the bytes after it. Module Parser proves the code against them.
 */
module ParseSpec {
  import opened Basics
  import opened LexSpec
  import Utf8
  import J = Json

  datatype LoadFlags = LoadFlags(rejectDuplicates: bool, disableEofCheck: bool, decodeAny: bool)

  /** What stays fixed during a parse: how the readable bytes end, strtod, and one flag. */
  datatype Env = Env(bad: bool, conv: Strtod, reject: bool)

  /** A value and the bytes after it. */
  type Parsed = Option<(J.Json, bytes)>

  function Next(s: bytes, env: Env): (r: Scan)
    ensures |r.rest| <= |s| && (!Stops(r.token) ==> |r.rest| < |s|)
  {
    ScanToken(s, env.bad, env.conv)
  }

  predicate Stops(t: Token) { t == Invalid || t == Eof }

  /** parse_value, with t the current token. */
  function Value(t: Token, s: bytes, env: Env): (r: Parsed)
    ensures r.Some? ==> |r.value.1| <= |s|
    decreases |s|, 2
  {
    match t
    case StringToken(text) => Some((J.Str(text), s))
    case IntToken(i) => Some((J.Int(i), s))
    case RealToken(x) => Some((J.Real(x), s))
    case TrueToken => Some((J.True, s))
    case FalseToken => Some((J.False, s))
    case NullToken => Some((J.Null, s))
    case Punct(c) =>
      if c == LBRACE then Object(s, env)
      else if c == LBRACKET then Array(s, env)
      else None
    case Invalid => None
    case Eof => None
  }

  /** parse_array, after the opening bracket. */
  function Array(s: bytes, env: Env): (r: Parsed)
    ensures r.Some? ==> |r.value.1| <= |s|
    decreases |s|, 1
  {
    var a := Next(s, env);
    if Stops(a.token) then None
    else if a.token == Punct(RBRACKET) then Some((J.Arr([]), a.rest))
    else Elements(a.token, a.rest, [], env)
  }

  /** The loop of parse_array: done holds the elements parsed so far. */
  function Elements(t: Token, s: bytes, done: seq<J.Json>, env: Env): (r: Parsed)
    ensures r.Some? ==> |r.value.1| <= |s|
    decreases |s|, 3
  {
    match Value(t, s, env)
    case None => None
    case Some(v) => MoreElements(done + [v.0], v.1, env)
  }

  /** The part of that loop after an element. */
  function MoreElements(done: seq<J.Json>, s: bytes, env: Env): (r: Parsed)
    ensures r.Some? ==> |r.value.1| <= |s|
    decreases |s|, 0
  {
    var a := Next(s, env);
    if a.token == Punct(COMMA) then
      var b := Next(a.rest, env);
      Elements(b.token, b.rest, done, env)
    else if a.token == Punct(RBRACKET) then Some((J.Arr(done), a.rest))
    else None
  }

  /** parse_object, after the opening brace. */
  function Object(s: bytes, env: Env): (r: Parsed)
    ensures r.Some? ==> |r.value.1| <= |s|
    decreases |s|, 1
  {
    var a := Next(s, env);
    if Stops(a.token) then None
    else if a.token == Punct(RBRACE) then Some((J.EMPTY_OBJECT, a.rest))
    else Members(a.token, a.rest, J.EMPTY_OBJECT, env)
  }

  /** The loop of parse_object: done holds the members parsed so far. */
  function Members(t: Token, s: bytes, done: J.Json, env: Env): (r: Parsed)
    requires done.Obj?
    ensures r.Some? ==> |r.value.1| <= |s|
    decreases |s|, 3
  {
    if !t.StringToken? then None
    else if env.reject && J.ObjectGet(done, t.s).Some? then None
    else
      var a := Next(s, env);
      if a.token != Punct(COLON) then None
      else
        var b := Next(a.rest, env);
        match Value(b.token, b.rest, env)
        case None => None
        case Some(v) => MoreMembers(J.ObjectSet(done, t.s, v.0), v.1, env)
  }

  /** The part of that loop after a member. */
  function MoreMembers(done: J.Json, s: bytes, env: Env): (r: Parsed)
    requires done.Obj?
    ensures r.Some? ==> |r.value.1| <= |s|
    decreases |s|, 0
  {
    var a := Next(s, env);
    if a.token == Punct(COMMA) then
      var b := Next(a.rest, env);
      Members(b.token, b.rest, done, env)
    else if a.token == Punct(RBRACE) then Some((done, a.rest))
    else None
  }

  /** parse_json: the value, and the bytes not read. */
  function Text(s: bytes, flags: LoadFlags, env: Env): Parsed {
    var a := Next(s, env);
    if !flags.decodeAny && a.token != Punct(LBRACKET) && a.token != Punct(LBRACE) then None
    else
      match Value(a.token, a.rest, env)
      case None => None
      case Some(v) =>
        if flags.disableEofCheck then Some(v)
        else if Next(v.1, env).token == Eof then Some((v.0, []))
        else None
  }

  /** The length of the longest prefix of data made of whole UTF-8 characters. */
  function ReadableLength(data: bytes): (n: nat)
    ensures n <= |data|
    decreases |data|
  {
    if data == [] then 0
    else match Utf8.FirstChar(data) case None => 0 case Some(c) => c.0 + ReadableLength(data[c.0..])
  }

  /** json_loads on a NUL-free string. */
  function Loads(data: bytes, flags: LoadFlags, conv: Strtod): Option<J.Json> {
    var n := ReadableLength(data);
    match Text(data[..n], flags, Env(n < |data|, conv, flags.rejectDuplicates))
    case None => None
    case Some(v) => Some(v.0)
  }

  lemma {:induction false} ReadableIsValid(data: bytes)
    ensures Utf8.ValidUtf8(data[..ReadableLength(data)])
    ensures ReadableLength(data) == |data| <==> Utf8.ValidUtf8(data)
    ensures ReadableLength(data) < |data| ==> Utf8.FirstChar(data[ReadableLength(data)..]) == None
    decreases |data|
  {
    hide Utf8.FirstChar;
    if data != [] && Utf8.FirstChar(data).Some? {
      var k := Utf8.FirstChar(data).value.0;
      var n := ReadableLength(data);
      assert n == k + ReadableLength(data[k..]);
      ReadableIsValid(data[k..]);
      assert data[k..][..n - k] == data[..n][k..];
      assert data[k..][n - k..] == data[n..];
      FirstCharOfPrefix(data, n);
    }
  }

  lemma FirstCharOfPrefix(data: bytes, n: nat)
    requires data != [] && Utf8.FirstChar(data).Some? && Utf8.FirstChar(data).value.0 <= n <= |data|
    ensures Utf8.FirstChar(data[..n]) == Utf8.FirstChar(data)
  {
    var k := Utf8.FirstChar(data).value.0;
    Utf8.EncodeInvertsCheck(data);
    Utf8.CheckInvertsEncode(Utf8.FirstChar(data).value.1, data[..n][k..]);
    assert data[..n] == data[..k] + data[..n][k..];
  }
}
