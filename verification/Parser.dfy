/** The recursive-descent parser of jansson/load.c over the lexer obj, proved against module ParseSpec. */
module Parser {
  import opened Basics
  import J = Json
  import L = LexSpec
  import P = ParseSpec
  import X = Lexer

  /** The bytes the lexer has not read. */
  ghost function Rest(lex: X.Lexer): bytes
    requires lex.Valid()
    reads lex.stream, lex.stream.buffer
  {
    hide P.ReadableLength;
    lex.Text()[lex.stream.position..]
  }

  ghost function EnvOf(lex: X.Lexer, reject: bool): P.Env { P.Env(lex.stream.Bad(), lex.conv, reject) }

  /** The call returned what p says, and left unread the bytes p leaves. */
  ghost predicate Yields(p: P.Parsed, r: Option<J.Json>, rest: bytes) {
    match p
    case None => r == None
    case Some(v) => r == Some(v.0) && rest == v.1
  }

  /** The current token and what follows it are those of a; after an invalid token nothing else matters. */
  ghost predicate Current(lex: X.Lexer, a: L.Scan)
    requires lex.Valid()
    reads lex, lex.stream, lex.stream.buffer
  {
    lex.token == a.token && (a.token != L.Invalid ==> Rest(lex) == a.rest)
  }

  method Scan(lex: X.Lexer, ghost reject: bool)
    requires lex.Valid()
    modifies lex, lex.stream, lex.stream.buffer
    ensures lex.Valid() && Current(lex, P.Next(old(Rest(lex)), EnvOf(lex, reject)))
  {
    lex.Scan();
  }

  lemma NoValueAfterStop(env: P.Env)
    ensures forall s :: P.Value(L.Invalid, s, env) == None && P.Value(L.Eof, s, env) == None
  {
  }

  /** One round of the loop of parse_array, on the specification. */
  lemma ElementStep(t: L.Token, s: bytes, done: seq<J.Json>, env: P.Env)
    ensures P.Value(t, s, env) == None ==> P.Elements(t, s, done, env) == None
    ensures P.Value(t, s, env).Some? ==>
      var (v, rest) := P.Value(t, s, env).value;
      var a := P.Next(rest, env);
      var b := P.Next(a.rest, env);
      P.Elements(t, s, done, env) ==
      if a.token == L.Punct(COMMA) then P.Elements(b.token, b.rest, done + [v], env)
      else if a.token == L.Punct(RBRACKET) then Some((J.Arr(done + [v]), a.rest))
      else None
  {
    hide P.Value, P.Next;
  }

  /** One round of the loop of parse_object, on the specification. */
  lemma MemberStep(t: L.Token, s: bytes, done: J.Json, env: P.Env)
    requires done.Obj?
    ensures !t.StringToken? || (env.reject && J.ObjectGet(done, t.s).Some?) ==> P.Members(t, s, done, env) == None
    ensures t.StringToken? && !(env.reject && J.ObjectGet(done, t.s).Some?) ==>
      var a := P.Next(s, env);
      var b := P.Next(a.rest, env);
      var v := P.Value(b.token, b.rest, env);
      P.Members(t, s, done, env) ==
      if a.token != L.Punct(COLON) || v == None then None
      else MoreOf(J.ObjectSet(done, t.s, v.value.0), v.value.1, env)
  {
    hide P.Value, P.Next, J.ObjectSet, J.ObjectGet;
  }

  /** What follows a member. */
  function MoreOf(done: J.Json, s: bytes, env: P.Env): P.Parsed
    requires done.Obj?
  {
    var a := P.Next(s, env);
    var b := P.Next(a.rest, env);
    if a.token == L.Punct(COMMA) then P.Members(b.token, b.rest, done, env)
    else if a.token == L.Punct(RBRACE) then Some((done, a.rest))
    else None
  }

  lemma StoppedLoopEnds(a: L.Scan, elems: seq<J.Json>, obj: J.Json, env: P.Env)
    requires obj.Obj?
    ensures P.Stops(a.token) ==>
      P.Elements(a.token, a.rest, elems, env) == None && P.Members(a.token, a.rest, obj, env) == None
  {
  }

  /** parse_value. The ghost n bounds the unread bytes, for termination. */
  method ParseValue(lex: X.Lexer, reject: bool, ghost n: nat) returns (r: Option<J.Json>)
    requires lex.Valid() && (!P.Stops(lex.token) ==> |Rest(lex)| <= n)
    modifies lex, lex.stream, lex.stream.buffer
    ensures lex.Valid() && Yields(P.Value(old(lex.token), old(Rest(lex)), EnvOf(lex, reject)), r, Rest(lex))
    decreases n, if lex.token.Punct? then 2 else 0
  {
    hide X.Lexer.Valid, Rest, P.Array, P.Object;
    match lex.token {
      case StringToken(s) => r := Some(J.Str(s));
      case IntToken(i) => r := Some(J.Int(i));
      case RealToken(x) => r := Some(J.Real(x));
      case TrueToken => r := Some(J.True);
      case FalseToken => r := Some(J.False);
      case NullToken => r := Some(J.Null);
      case Punct(c) =>
        if c == LBRACE {
          r := ParseObject(lex, reject, n);
        } else if c == LBRACKET {
          r := ParseArray(lex, reject, n);
        } else {
          r := None;
        }
      case Invalid => r := None;
      case Eof => r := None;
    }
  }

  /** parse_array. */
  method ParseArray(lex: X.Lexer, reject: bool, ghost n: nat) returns (r: Option<J.Json>)
    requires lex.Valid() && |Rest(lex)| <= n
    modifies lex, lex.stream, lex.stream.buffer
    ensures lex.Valid() && Yields(P.Array(old(Rest(lex)), EnvOf(lex, reject)), r, Rest(lex))
    decreases n, 1
  {
    hide X.Lexer.Valid, Rest, P.Value, P.Next, P.Elements;
    ghost var env := EnvOf(lex, reject);
    ghost var total := P.Array(Rest(lex), env);
    ghost var a := P.Next(Rest(lex), env);
    Scan(lex, reject);
    if lex.token == L.Punct(RBRACKET) {
      return Some(J.Arr([]));
    }
    var elems := [];
    StoppedLoopEnds(a, elems, J.EMPTY_OBJECT, env);
    while lex.token != L.Eof
      invariant lex.Valid() && Current(lex, a) && EnvOf(lex, reject) == env
      invariant total == P.Elements(a.token, a.rest, elems, env) && (P.Stops(a.token) ==> total == None)
      invariant !P.Stops(a.token) ==> |a.rest| < n
      decreases !P.Stops(a.token), |a.rest|
    {
      ElementStep(a.token, a.rest, elems, env);
      NoValueAfterStop(env);
      var elem := ParseValue(lex, reject, if P.Stops(a.token) then n else |a.rest|);
      if elem == None {
        return None;
      }
      elems := elems + [elem.value];
      a := P.Next(Rest(lex), env);
      Scan(lex, reject);
      if lex.token != L.Punct(COMMA) {
        break;
      }
      a := P.Next(Rest(lex), env);
      Scan(lex, reject);
      StoppedLoopEnds(a, elems, J.EMPTY_OBJECT, env);
    }
    if lex.token != L.Punct(RBRACKET) {
      return None;
    }
    return Some(J.Arr(elems));
  }

  /** parse_object. */
  method ParseObject(lex: X.Lexer, reject: bool, ghost n: nat) returns (r: Option<J.Json>)
    requires lex.Valid() && |Rest(lex)| <= n
    modifies lex, lex.stream, lex.stream.buffer
    ensures lex.Valid() && Yields(P.Object(old(Rest(lex)), EnvOf(lex, reject)), r, Rest(lex))
    decreases n, 1
  {
    hide X.Lexer.Valid, Rest, P.Value, P.Next, P.Members, J.ObjectSet, J.ObjectGet;
    ghost var env := EnvOf(lex, reject);
    ghost var total := P.Object(Rest(lex), env);
    ghost var a := P.Next(Rest(lex), env);
    Scan(lex, reject);
    var obj := J.EMPTY_OBJECT;
    if lex.token == L.Punct(RBRACE) {
      return Some(obj);
    }
    StoppedLoopEnds(a, [], obj, env);
    while true
      invariant lex.Valid() && Current(lex, a) && EnvOf(lex, reject) == env && obj.Obj?
      invariant total == P.Members(a.token, a.rest, obj, env)
      invariant !P.Stops(a.token) ==> |a.rest| < n
      decreases !P.Stops(a.token), |a.rest|
    {
      MemberStep(a.token, a.rest, obj, env);
      if !lex.token.StringToken? {
        return None;
      }
      var key := lex.token.s;
      if reject && J.ObjectGet(obj, key) != None {
        return None;
      }
      a := P.Next(Rest(lex), env);
      Scan(lex, reject);
      if lex.token != L.Punct(COLON) {
        return None;
      }
      a := P.Next(Rest(lex), env);
      Scan(lex, reject);
      NoValueAfterStop(env);
      var value := ParseValue(lex, reject, if P.Stops(a.token) then n else |a.rest|);
      if value == None {
        return None;
      }
      obj := J.ObjectSet(obj, key, value.value);
      a := P.Next(Rest(lex), env);
      Scan(lex, reject);
      if lex.token != L.Punct(COMMA) {
        break;
      }
      a := P.Next(Rest(lex), env);
      Scan(lex, reject);
    }
    if lex.token != L.Punct(RBRACE) {
      return None;
    }
    return Some(obj);
  }

  /** parse_json. */
  method ParseJson(lex: X.Lexer, flags: P.LoadFlags) returns (r: Option<J.Json>)
    requires lex.Valid()
    modifies lex, lex.stream, lex.stream.buffer
    ensures lex.Valid()
    ensures var p := P.Text(old(Rest(lex)), flags, EnvOf(lex, flags.rejectDuplicates));
      r == match p case None => None case Some(v) => Some(v.0)
  {
    hide X.Lexer.Valid, Rest, P.Value, P.Next;
    Scan(lex, flags.rejectDuplicates);
    if !flags.decodeAny {
      if lex.token != L.Punct(LBRACKET) && lex.token != L.Punct(LBRACE) {
        return None;
      }
    }
    NoValueAfterStop(EnvOf(lex, flags.rejectDuplicates));
    r := ParseValue(lex, flags.rejectDuplicates, |Rest(lex)|);
    if r == None {
      return;
    }
    if !flags.disableEofCheck {
      Scan(lex, flags.rejectDuplicates);
      if lex.token != L.Eof {
        return None;
      }
    }
  }

  /** json_loads on a NUL-free string: total, and exactly what the specification says. */
  method JsonLoads(data: bytes, flags: P.LoadFlags, conv: L.Strtod) returns (r: Option<J.Json>)
    requires NulFree(data)
    ensures r == P.Loads(data, flags, conv)
  {
    var lex := new X.Lexer(data, conv);
    r := ParseJson(lex, flags);
  }
}
