/** The parser of module ParseSpec accepts exactly the texts of module Grammar, with their meaning. */
module ParseGrammar {
  import opened Basics
  import opened Grammar
  import opened LexGrammar
  import Utf8
  import J = Json
  import L = LexSpec
  import P = ParseSpec

  // ----- from the grammar to the parser -----

  /** White space at the end of a text, which the parser leaves for the next token. */
  function Tail(v: Value): bytes {
    match v
    case ArrayLit(_, elems) => ArrayTail(elems)
    case ObjectLit(_, members) => ObjectTail(members)
    case _ => []
  }

  function ArrayTail(elems: Elems): bytes {
    match elems case NoElems(close) => close.after case SomeElems(_, more) => ElemsTail(more)
  }

  function ObjectTail(members: Members): bytes {
    match members case NoMembers(close) => close.after case SomeMembers(_, _, _, more) => MembersTail(more)
  }

  function ElemsTail(e: MoreElems): bytes {
    match e case LastElem(close) => close.after case NextElem(_, _, more) => ElemsTail(more)
  }

  function MembersTail(m: MoreMembers): bytes {
    match m case LastMember(close) => close.after case NextMember(_, _, _, _, more) => MembersTail(more)
  }

  lemma TailIsWs(v: Value)
    requires Wf(v)
    ensures L.AllWs(Tail(v))
  {
    if v.ArrayLit? && v.elems.SomeElems? { ElemsTailIsWs(v.elems.more); }
    if v.ObjectLit? && v.members.SomeMembers? { MembersTailIsWs(v.members.more); }
  }

  lemma ElemsTailIsWs(e: MoreElems)
    requires WfMoreElems(e)
    ensures L.AllWs(ElemsTail(e))
  {}

  lemma MembersTailIsWs(m: MoreMembers)
    requires WfMoreMembers(m)
    ensures L.AllWs(MembersTail(m))
  {}

  /** The number of nodes of a derivation tree. */
  function Size(v: Value): nat {
    match v
    case ArrayLit(_, elems) => 1 + ElemsSize(elems)
    case ObjectLit(_, members) => 1 + MembersSize(members)
    case _ => 1
  }

  function ElemsSize(e: Elems): nat {
    match e case NoElems(_) => 1 case SomeElems(first, more) => 1 + Size(first) + MoreElemsSize(more)
  }

  function MoreElemsSize(e: MoreElems): (n: nat)
    ensures n >= 1
  {
    match e case LastElem(_) => 1 case NextElem(_, value, more) => 1 + Size(value) + MoreElemsSize(more)
  }

  function MembersSize(m: Members): nat {
    match m case NoMembers(_) => 1 case SomeMembers(_, _, value, more) => 1 + Size(value) + MoreMembersSize(more)
  }

  function MoreMembersSize(m: MoreMembers): (n: nat)
    ensures n >= 1
  {
    match m case LastMember(_) => 1 case NextMember(_, _, _, value, more) => 1 + Size(value) + MoreMembersSize(more)
  }

  lemma PunctRead(w: bytes, s: Sep, c: byte, k: bytes, env: P.Env)
    requires L.AllWs(w) && WfSep(s) && L.IsPunct(c)
    ensures P.Next(w + SpellSep(s, c, k), env) == L.Scan(L.Punct(c), s.after + k)
  {
    var t := [c] + (s.after + k);
    assert w + SpellSep(s, c, k) == (w + s.before) + t;
    SkipWs(w + s.before, t, env.bad, env.conv);
    assert t[1..] == s.after + k;
  }

  lemma StringRead(w: bytes, items: seq<Item>, k: bytes, env: P.Env)
    requires L.AllWs(w) && WfItems(items) && MeanItems(items).Some?
    ensures P.Next(w + SpellString(items, k), env) == L.Scan(L.StringToken(MeanItems(items).value), k)
  {
    var t := SpellString(items, k);
    SkipWs(w, t, env.bad, env.conv);
    assert t[1..] == SpellItems(items, [QUOTE] + k);
    PassesReadItems(items, k);
  }

  lemma NumberTokenRead(w: bytes, n: Number, k: bytes, env: P.Env)
    requires L.AllWs(w) && WfNumber(n) && MeanNumber(n, env.conv).Some? && NumberEnds(n, k)
    ensures P.Next(w + (SpellNumber(n) + k), env) == L.Scan(NumberToken(MeanNumber(n, env.conv)), k)
  {
    hide SpellNumber, WfNumber, NumberEnds, L.ScanNumber;
    var t := SpellNumber(n) + k;
    NumberStarts(n, k);
    SkipWs(w, t, env.bad, env.conv);
    NumberRead(n, k, env.conv);
  }

  lemma NumberStarts(n: Number, k: bytes)
    requires WfNumber(n)
    ensures var t := SpellNumber(n) + k; t != [] && (L.IsDigit(t[0]) || t[0] == MINUS)
  {
    assert (SpellNumber(n) + k)[0] == SpellInt(n)[0];
  }

  lemma WordTokenRead(w: bytes, text: bytes, k: bytes, env: P.Env)
    requires L.AllWs(w) && (k == [] || !L.IsAlpha(k[0]))
    requires text == TRUE_TEXT || text == FALSE_TEXT || text == NULL_TEXT
    ensures P.Next(w + (text + k), env) == L.Scan(L.Word(text), k)
  {
    assert (text + k)[0] == text[0];
    SkipWs(w, text + k, env.bad, env.conv);
    WordRead(text, k, env.conv);
  }

  lemma SepDelimits(w: bytes, s: Sep, c: byte, k: bytes)
    requires L.AllWs(w) && WfSep(s) && (c == COMMA || c == RBRACKET || c == RBRACE)
    ensures Delimited(w + SpellSep(s, c, k))
  {
    var t := w + SpellSep(s, c, k);
    if w == [] && s.before == [] { assert t[0] == c; }
    else if w == [] { assert t[0] == s.before[0]; }
  }

  lemma MoreElemsDelimit(e: MoreElems, k: bytes)
    requires WfMoreElems(e)
    ensures Delimited(SpellMoreElems(e, k))
  {
    match e {
      case LastElem(close) =>
        SepDelimits([], close, RBRACKET, k);
        assert [] + SpellSep(close, RBRACKET, k) == SpellSep(close, RBRACKET, k);
      case NextElem(comma, value, more) =>
        var t := Spell(value, SpellMoreElems(more, k));
        SepDelimits([], comma, COMMA, t);
        assert [] + SpellSep(comma, COMMA, t) == SpellSep(comma, COMMA, t);
    }
  }

  lemma MoreMembersDelimit(m: MoreMembers, k: bytes)
    requires WfMoreMembers(m)
    ensures Delimited(SpellMoreMembers(m, k))
  {
    match m {
      case LastMember(close) =>
        SepDelimits([], close, RBRACE, k);
        assert [] + SpellSep(close, RBRACE, k) == SpellSep(close, RBRACE, k);
      case NextMember(comma, name, colon, value, more) =>
        var t := SpellString(name, SpellSep(colon, COLON, Spell(value, SpellMoreMembers(more, k))));
        SepDelimits([], comma, COMMA, t);
        assert [] + SpellSep(comma, COMMA, t) == SpellSep(comma, COMMA, t);
    }
  }

  ghost predicate ParsesTo(s: bytes, env: P.Env, j: J.Json, rest: bytes) {
    var a := P.Next(s, env);
    P.Value(a.token, a.rest, env) == Some((j, rest))
  }

  /** The parser reads every text of the grammar that has a meaning, and builds that meaning. */
  lemma {:induction false} ValueComplete(w: bytes, v: Value, k: bytes, env: P.Env)
    requires L.AllWs(w) && Wf(v) && Mean(v, env.conv, env.reject).Some?
    requires Ends(v, k)
    ensures ParsesTo(w + Spell(v, k), env, Mean(v, env.conv, env.reject).value, Tail(v) + k)
    decreases Size(v)
  {
    match v {
      case ArrayLit(open, elems) =>
        PunctRead(w, open, LBRACKET, SpellElems(elems, k), env);
        ArrayComplete(open.after, elems, k, env);
      case ObjectLit(open, members) =>
        PunctRead(w, open, LBRACE, SpellMembers(members, k), env);
        ObjectComplete(open.after, members, k, env);
      case _ => ScalarComplete(w, v, k, env);
    }
  }

  lemma ScalarComplete(w: bytes, v: Value, k: bytes, env: P.Env)
    requires L.AllWs(w) && Wf(v) && Mean(v, env.conv, env.reject).Some? && !IsText(v) && Ends(v, k)
    ensures ParsesTo(w + Spell(v, k), env, Mean(v, env.conv, env.reject).value, Tail(v) + k)
  {
    hide ParsesTo, SpellNumber, SpellItems, MeanItems, MeanNumber;
    assert Tail(v) + k == k;
    match v {
      case NullLit => WordComplete(w, NULL_TEXT, J.Null, k, env);
      case TrueLit => WordComplete(w, TRUE_TEXT, J.True, k, env);
      case FalseLit => WordComplete(w, FALSE_TEXT, J.False, k, env);
      case NumberLit(n) => NumberComplete(w, n, k, env);
      case StringLit(items) => StringComplete(w, items, k, env);
    }
  }

  lemma WordComplete(w: bytes, text: bytes, j: J.Json, k: bytes, env: P.Env)
    requires L.AllWs(w) && (k == [] || !L.IsAlpha(k[0]))
    requires
      || (text == TRUE_TEXT && j == J.True)
      || (text == FALSE_TEXT && j == J.False)
      || (text == NULL_TEXT && j == J.Null)
    ensures ParsesTo(w + (text + k), env, j, k)
  {
    hide P.Next;
    WordTokenRead(w, text, k, env);
  }

  lemma NumberComplete(w: bytes, n: Number, k: bytes, env: P.Env)
    requires L.AllWs(w) && WfNumber(n) && MeanNumber(n, env.conv).Some? && NumberEnds(n, k)
    ensures ParsesTo(w + (SpellNumber(n) + k), env, MeanNumber(n, env.conv).value, k)
  {
    NumberTokenRead(w, n, k, env);
  }

  lemma StringComplete(w: bytes, items: seq<Item>, k: bytes, env: P.Env)
    requires L.AllWs(w) && WfItems(items) && MeanItems(items).Some?
    ensures ParsesTo(w + SpellString(items, k), env, J.Str(MeanItems(items).value), k)
  {
    StringRead(w, items, k, env);
  }

  lemma {:induction false} ArrayComplete(w: bytes, elems: Elems, k: bytes, env: P.Env)
    requires L.AllWs(w) && WfElems(elems) && MeanElems(elems, env.conv, env.reject).Some?
    ensures P.Array(w + SpellElems(elems, k), env)
      == Some((J.Arr(MeanElems(elems, env.conv, env.reject).value), ArrayTail(elems) + k))
    decreases ElemsSize(elems)
  {
    match elems {
      case NoElems(close) => PunctRead(w, close, RBRACKET, k, env);
      case SomeElems(first, more) =>
        var j, js := Mean(first, env.conv, env.reject).value, MeanMoreElems(more, env.conv, env.reject).value;
        assert MeanElems(elems, env.conv, env.reject) == Some([j] + js);
        ElementComplete(w, first, more, [], k, env);
        assert [] + [j] == [j];
        MoreElementsComplete(Tail(first), more, [j], k, env);
    }
  }

  /** Reading one element leaves the parser in front of what follows it. */
  lemma {:induction false} ElementComplete(w: bytes, v: Value, more: MoreElems, done: seq<J.Json>, k: bytes, env: P.Env)
    requires L.AllWs(w) && Wf(v) && WfMoreElems(more) && Mean(v, env.conv, env.reject).Some?
    ensures L.AllWs(Tail(v))
    ensures var rest := SpellMoreElems(more, k);
      var a := P.Next(w + Spell(v, rest), env);
      && !P.Stops(a.token) && a.token != L.Punct(RBRACKET)
      && P.Elements(a.token, a.rest, done, env)
        == P.MoreElements(done + [Mean(v, env.conv, env.reject).value], Tail(v) + rest, env)
    decreases Size(v) + 1, 0
  {
    MoreElemsDelimit(more, k);
    DelimitedEnds(v, SpellMoreElems(more, k));
    ValueComplete(w, v, SpellMoreElems(more, k), env);
    TailIsWs(v);
  }

  lemma ElementComma(w: bytes, comma: Sep, k: bytes, done: seq<J.Json>, env: P.Env)
    requires L.AllWs(w) && WfSep(comma)
    ensures P.MoreElements(done, w + SpellSep(comma, COMMA, k), env)
      == var b := P.Next(comma.after + k, env); P.Elements(b.token, b.rest, done, env)
  {
    PunctRead(w, comma, COMMA, k, env);
  }

  lemma {:induction false} MoreElementsComplete(w: bytes, more: MoreElems, done: seq<J.Json>, k: bytes, env: P.Env)
    requires L.AllWs(w) && WfMoreElems(more) && MeanMoreElems(more, env.conv, env.reject).Some?
    ensures P.MoreElements(done, w + SpellMoreElems(more, k), env)
      == Some((J.Arr(done + MeanMoreElems(more, env.conv, env.reject).value), ElemsTail(more) + k))
    decreases MoreElemsSize(more)
  {
    hide P.Next, P.Value, Spell, Mean;
    match more {
      case LastElem(close) =>
        PunctRead(w, close, RBRACKET, k, env);
        assert done + [] == done;
      case NextElem(comma, value, more') =>
        NextElementComplete(w, comma, value, more', done, k, env);
        var j := Mean(value, env.conv, env.reject).value;
        MoreElementsComplete(Tail(value), more', done + [j], k, env);
        var js := MeanMoreElems(more', env.conv, env.reject).value;
        assert MeanMoreElems(more, env.conv, env.reject) == Some([j] + js);
        assert (done + [j]) + js == done + ([j] + js);
    }
  }

  lemma {:induction false} NextElementComplete(
    w: bytes, comma: Sep, value: Value, more: MoreElems, done: seq<J.Json>, k: bytes, env: P.Env)
    requires L.AllWs(w) && WfSep(comma) && Wf(value) && WfMoreElems(more) && Mean(value, env.conv, env.reject).Some?
    ensures L.AllWs(Tail(value))
    ensures P.MoreElements(done, w + SpellMoreElems(NextElem(comma, value, more), k), env)
      == P.MoreElements(done + [Mean(value, env.conv, env.reject).value], Tail(value) + SpellMoreElems(more, k), env)
    decreases Size(value) + 1, 1
  {
    ElementComma(w, comma, Spell(value, SpellMoreElems(more, k)), done, env);
    ElementComplete(comma.after, value, more, done, k, env);
  }

  lemma {:induction false} ObjectComplete(w: bytes, members: Members, k: bytes, env: P.Env)
    requires L.AllWs(w) && WfMembers(members) && MeanMembers(members, env.conv, env.reject).Some?
    requires BuildOn(J.EMPTY_OBJECT, MeanMembers(members, env.conv, env.reject).value, env.reject).Some?
    ensures P.Object(w + SpellMembers(members, k), env) == Some((
      BuildOn(J.EMPTY_OBJECT, MeanMembers(members, env.conv, env.reject).value, env.reject).value,
      ObjectTail(members) + k))
    decreases MembersSize(members)
  {
    match members {
      case NoMembers(close) => PunctRead(w, close, RBRACE, k, env);
      case SomeMembers(name, colon, value, more) =>
        MemberComplete(w, name, colon, value, more, J.EMPTY_OBJECT, k, env);
        var js := MeanMoreMembers(more, env.conv, env.reject).value;
        var key, j := MeanItems(name).value, Mean(value, env.conv, env.reject).value;
        assert ([(key, j)] + js)[1..] == js;
        MoreMembersComplete(Tail(value), more, J.ObjectSet(J.EMPTY_OBJECT, key, j), k, env);
    }
  }

  function SpellMember(name: seq<Item>, colon: Sep, value: Value, more: MoreMembers, k: bytes): bytes {
    SpellString(name, SpellSep(colon, COLON, Spell(value, SpellMoreMembers(more, k))))
  }

  /** Reading one member sets its key and leaves the parser in front of what follows it. */
  lemma {:induction false} MemberComplete(
    w: bytes, name: seq<Item>, colon: Sep, value: Value, more: MoreMembers, done: J.Json, k: bytes, env: P.Env)
    requires L.AllWs(w) && WfItems(name) && WfSep(colon) && Wf(value) && WfMoreMembers(more) && done.Obj?
    requires MeanItems(name).Some? && Mean(value, env.conv, env.reject).Some?
    requires !(env.reject && J.ObjectGet(done, MeanItems(name).value).Some?)
    ensures L.AllWs(Tail(value))
    ensures var a := P.Next(w + SpellMember(name, colon, value, more, k), env);
      && a.token.StringToken?
      && P.Members(a.token, a.rest, done, env) == P.MoreMembers(
        J.ObjectSet(done, MeanItems(name).value, Mean(value, env.conv, env.reject).value),
        Tail(value) + SpellMoreMembers(more, k), env)
    decreases Size(value) + 1
  {
    var rest := SpellMoreMembers(more, k);
    var afterName := SpellSep(colon, COLON, Spell(value, rest));
    StringRead(w, name, afterName, env);
    assert [] + afterName == afterName;
    PunctRead([], colon, COLON, Spell(value, rest), env);
    MoreMembersDelimit(more, k);
    DelimitedEnds(value, rest);
    ValueComplete(colon.after, value, rest, env);
    TailIsWs(value);
  }

  lemma {:induction false} MoreMembersComplete(w: bytes, more: MoreMembers, done: J.Json, k: bytes, env: P.Env)
    requires L.AllWs(w) && WfMoreMembers(more) && done.Obj? && MeanMoreMembers(more, env.conv, env.reject).Some?
    requires BuildOn(done, MeanMoreMembers(more, env.conv, env.reject).value, env.reject).Some?
    ensures P.MoreMembers(done, w + SpellMoreMembers(more, k), env) == Some((
      BuildOn(done, MeanMoreMembers(more, env.conv, env.reject).value, env.reject).value, MembersTail(more) + k))
    decreases MoreMembersSize(more)
  {
    match more {
      case LastMember(close) => PunctRead(w, close, RBRACE, k, env);
      case NextMember(comma, name, colon, value, more') =>
        PunctRead(w, comma, COMMA, SpellMember(name, colon, value, more', k), env);
        MemberComplete(comma.after, name, colon, value, more', done, k, env);
        var js := MeanMoreMembers(more', env.conv, env.reject).value;
        var key, j := MeanItems(name).value, Mean(value, env.conv, env.reject).value;
        assert ([(key, j)] + js)[1..] == js;
        MoreMembersComplete(Tail(value), more', J.ObjectSet(done, key, j), k, env);
    }
  }

  // ----- from the parser to the grammar -----

  lemma ScanSplit(s: bytes, env: P.Env) returns (w: bytes, t: bytes)
    requires Utf8.ValidUtf8(s) && !P.Stops(P.Next(s, env).token)
    ensures L.AllWs(w) && s == w + t && t != [] && !L.IsWs(t[0]) && Utf8.ValidUtf8(t)
    ensures P.Next(s, env) == L.ScanHere(t, env.conv)
  {
    hide Utf8.ValidUtf8, L.ScanHere;
    var n := L.WsRun(s);
    w, t := s[..n], s[n..];
    AsciiPrefix(s, n);
  }

  lemma PunctSplit(s: bytes, env: P.Env) returns (w: bytes)
    requires Utf8.ValidUtf8(s) && P.Next(s, env).token.Punct?
    ensures var a := P.Next(s, env);
      L.AllWs(w) && s == w + ([a.token.c] + a.rest) && Utf8.ValidUtf8(a.rest) && L.IsPunct(a.token.c)
  {
    hide Utf8.ValidUtf8, L.ScanToken, L.ScanString, L.ScanNumber;
    var t;
    w, t := ScanSplit(s, env);
    assert t == [t[0]] + t[1..];
    AsciiPrefix(t, 1);
  }

  lemma StringSplit(s: bytes, env: P.Env) returns (w: bytes, items: seq<Item>)
    requires Utf8.ValidUtf8(s) && P.Next(s, env).token.StringToken?
    ensures var a := P.Next(s, env);
      L.AllWs(w) && WfItems(items) && s == w + SpellString(items, a.rest) && Utf8.ValidUtf8(a.rest)
      && MeanItems(items) == Some(a.token.s)
  {
    hide Utf8.ValidUtf8, L.ScanToken, L.ScanNumber;
    var t;
    w, t := ScanSplit(s, env);
    AsciiPrefix(t, 1);
    items := PassesImplyItems(t[1..]);
    PassesReadItems(items, P.Next(s, env).rest);
    assert t == [QUOTE] + t[1..];
  }

  lemma NumberTokenSplit(s: bytes, env: P.Env) returns (w: bytes, n: Number)
    requires Utf8.ValidUtf8(s) && (P.Next(s, env).token.IntToken? || P.Next(s, env).token.RealToken?)
    ensures var a := P.Next(s, env);
      L.AllWs(w) && WfNumber(n) && s == w + (SpellNumber(n) + a.rest) && Utf8.ValidUtf8(a.rest)
      && NumberToken(MeanNumber(n, env.conv)) == a.token && NumberEnds(n, a.rest)
  {
    hide Utf8.ValidUtf8, L.ScanToken, L.ScanString, L.ScanNumber, MeanNumber, SpellNumber;
    var t;
    w, t := ScanSplit(s, env);
    n := NumberSplit(t, env.conv);
    NumberIsAscii(n);
    AsciiPrefix(t, |SpellNumber(n)|);
    assert t[|SpellNumber(n)|..] == P.Next(s, env).rest;
  }

  lemma NumberIsAscii(n: Number)
    requires WfNumber(n)
    ensures forall i :: 0 <= i < |SpellNumber(n)| ==> SpellNumber(n)[i] < 0x80
  {
    assert forall i :: 0 <= i < |SpellInt(n)| ==> SpellInt(n)[i] < 0x80;
    assert forall i :: 0 <= i < |SpellFrac(n.frac)| ==> SpellFrac(n.frac)[i] < 0x80;
    assert forall i :: 0 <= i < |SpellExponent(n.exp)| ==> SpellExponent(n.exp)[i] < 0x80;
  }

  predicate IsWordToken(t: L.Token) { t == L.TrueToken || t == L.FalseToken || t == L.NullToken }

  lemma WordHere(t: bytes, conv: L.Strtod)
    requires t != [] && IsWordToken(L.ScanHere(t, conv).token)
    ensures var n := L.AlphaRun(t); L.ScanHere(t, conv) == L.Scan(L.Word(t[..n]), t[n..])
  {
    hide L.ScanString, L.ScanNumber, L.Word, L.AlphaRun;
  }

  lemma WordSplit(s: bytes, env: P.Env) returns (w: bytes, text: bytes)
    requires Utf8.ValidUtf8(s) && IsWordToken(P.Next(s, env).token)
    ensures var a := P.Next(s, env);
      L.AllWs(w) && s == w + (text + a.rest) && Utf8.ValidUtf8(a.rest) && L.Word(text) == a.token
      && (a.rest == [] || !L.IsAlpha(a.rest[0]))
  {
    hide Utf8.ValidUtf8, P.Next, L.Word, L.ScanHere;
    var t;
    w, t := ScanSplit(s, env);
    WordHere(t, env.conv);
    var n := L.AlphaRun(t);
    text := t[..n];
    AsciiPrefix(t, n);
    assert t == t[..n] + t[n..];
  }

  /** v spells s up to rest, after white space w, and means j. */
  ghost predicate Derives(s: bytes, env: P.Env, w: bytes, v: Value, j: J.Json, rest: bytes) {
    && L.AllWs(w) && Wf(v) && s == w + Spell(v, rest)
    && Mean(v, env.conv, env.reject) == Some(j)
    && Utf8.ValidUtf8(rest)
    && Ends(v, rest)
  }

  /** Whatever parse_value accepts is a text of the grammar, and the value is its meaning. */
  lemma {:induction false} ValueSound(s: bytes, env: P.Env, j: J.Json, rest: bytes) returns (w: bytes, v: Value)
    requires Utf8.ValidUtf8(s) && ParsesTo(s, env, j, rest)
    ensures Derives(s, env, w, v, j, rest)
    ensures P.Next(s, env).token == L.Punct(LBRACKET) || P.Next(s, env).token == L.Punct(LBRACE) ==> IsText(v)
    decreases |s|, 2
  {
    hide Utf8.ValidUtf8, P.Next;
    var a := P.Next(s, env);
    match a.token {
      case Punct(c) =>
        w := PunctSplit(s, env);
        if c == LBRACKET {
          var after, elems := ArraySound(a.rest, env, j, rest);
          v := ArrayLit(Sep([], after), elems);
          assert SpellSep(Sep([], after), LBRACKET, SpellElems(elems, rest)) == [LBRACKET] + a.rest;
        } else {
          var after, members := ObjectSound(a.rest, env, j, rest);
          v := ObjectLit(Sep([], after), members);
          assert SpellSep(Sep([], after), LBRACE, SpellMembers(members, rest)) == [LBRACE] + a.rest;
        }
      case _ => w, v := ScalarSound(s, env, j, rest);
    }
  }

  lemma ScalarSound(s: bytes, env: P.Env, j: J.Json, rest: bytes) returns (w: bytes, v: Value)
    requires Utf8.ValidUtf8(s) && ParsesTo(s, env, j, rest) && !P.Next(s, env).token.Punct?
    ensures Derives(s, env, w, v, j, rest)
  {
    hide Utf8.ValidUtf8, P.Next, MeanItems, MeanNumber, SpellNumber, SpellItems, NumberEnds;
    match P.Next(s, env).token {
      case StringToken(_) =>
        var items;
        w, items := StringSplit(s, env);
        v := StringLit(items);
      case TrueToken =>
        var text;
        w, text := WordSplit(s, env);
        v := TrueLit;
      case FalseToken =>
        var text;
        w, text := WordSplit(s, env);
        v := FalseLit;
      case NullToken =>
        var text;
        w, text := WordSplit(s, env);
        v := NullLit;
      case _ =>
        var n;
        w, n := NumberTokenSplit(s, env);
        v := NumberLit(n);
    }
  }

  lemma {:induction false} ArraySound(s: bytes, env: P.Env, j: J.Json, rest: bytes) returns (w: bytes, elems: Elems)
    requires Utf8.ValidUtf8(s) && P.Array(s, env) == Some((j, rest))
    ensures L.AllWs(w) && WfElems(elems) && s == w + SpellElems(elems, rest) && Utf8.ValidUtf8(rest)
    ensures MeanElems(elems, env.conv, env.reject).Some? && j == J.Arr(MeanElems(elems, env.conv, env.reject).value)
    decreases |s|, 4
  {
    hide Utf8.ValidUtf8, P.Next, P.Value;
    var a := P.Next(s, env);
    if a.token == L.Punct(RBRACKET) {
      var before := PunctSplit(s, env);
      w, elems := [], NoElems(Sep(before, []));
      assert [] + rest == rest;
    } else {
      var v, more;
      w, v, more := ElementsSound(s, [], env, j, rest);
      elems := SomeElems(v, more);
      var m, ms := Mean(v, env.conv, env.reject).value, MeanMoreElems(more, env.conv, env.reject).value;
      assert [] + [m] + ms == [m] + ms;
    }
  }

  lemma {:induction false} ElementsSound(s: bytes, done: seq<J.Json>, env: P.Env, j: J.Json, rest: bytes)
    returns (w: bytes, v: Value, more: MoreElems)
    requires Utf8.ValidUtf8(s) && var a := P.Next(s, env); P.Elements(a.token, a.rest, done, env) == Some((j, rest))
    ensures L.AllWs(w) && Wf(v) && WfMoreElems(more) && s == w + Spell(v, SpellMoreElems(more, rest))
    ensures Utf8.ValidUtf8(rest)
    ensures var m, ms := Mean(v, env.conv, env.reject), MeanMoreElems(more, env.conv, env.reject);
      m.Some? && ms.Some? && j == J.Arr(done + [m.value] + ms.value)
    decreases |s|, 3
  {
    hide Utf8.ValidUtf8, P.Next, P.Value;
    var a := P.Next(s, env);
    var r := P.Value(a.token, a.rest, env).value;
    w, v := ValueSound(s, env, r.0, r.1);
    more := MoreElementsSound(r.1, done + [r.0], env, j, rest);
  }

  lemma {:induction false} MoreElementsSound(s: bytes, done: seq<J.Json>, env: P.Env, j: J.Json, rest: bytes)
    returns (more: MoreElems)
    requires Utf8.ValidUtf8(s) && P.MoreElements(done, s, env) == Some((j, rest))
    ensures WfMoreElems(more) && s == SpellMoreElems(more, rest) && Utf8.ValidUtf8(rest)
    ensures var ms := MeanMoreElems(more, env.conv, env.reject); ms.Some? && j == J.Arr(done + ms.value)
    decreases |s|, 0
  {
    hide Utf8.ValidUtf8, P.Next, P.Value;
    var a := P.Next(s, env);
    var before := PunctSplit(s, env);
    if a.token == L.Punct(RBRACKET) {
      more := LastElem(Sep(before, []));
      assert [] + rest == rest && done + [] == done;
    } else {
      var w, v, more' := ElementsSound(a.rest, done, env, j, rest);
      more := NextElem(Sep(before, w), v, more');
      var m, ms := Mean(v, env.conv, env.reject).value, MeanMoreElems(more', env.conv, env.reject).value;
      assert done + [m] + ms == done + ([m] + ms);
    }
  }

  lemma {:induction false} ObjectSound(s: bytes, env: P.Env, j: J.Json, rest: bytes)
    returns (w: bytes, members: Members)
    requires Utf8.ValidUtf8(s) && P.Object(s, env) == Some((j, rest))
    ensures L.AllWs(w) && WfMembers(members) && s == w + SpellMembers(members, rest) && Utf8.ValidUtf8(rest)
    ensures var bs := MeanMembers(members, env.conv, env.reject);
      bs.Some? && BuildOn(J.EMPTY_OBJECT, bs.value, env.reject) == Some(j)
    decreases |s|, 4
  {
    hide Utf8.ValidUtf8, P.Next, P.Value;
    var a := P.Next(s, env);
    if a.token == L.Punct(RBRACE) {
      var before := PunctSplit(s, env);
      w, members := [], NoMembers(Sep(before, []));
      assert [] + rest == rest;
    } else {
      var name, colon, value, more;
      w, name, colon, value, more := MembersSound(s, J.EMPTY_OBJECT, env, j, rest);
      members := SomeMembers(name, colon, value, more);
    }
  }

  lemma {:induction false} MembersSound(s: bytes, done: J.Json, env: P.Env, j: J.Json, rest: bytes)
    returns (w: bytes, name: seq<Item>, colon: Sep, value: Value, more: MoreMembers)
    requires Utf8.ValidUtf8(s) && done.Obj?
    requires var a := P.Next(s, env); P.Members(a.token, a.rest, done, env) == Some((j, rest))
    ensures L.AllWs(w) && WfItems(name) && WfSep(colon) && Wf(value) && WfMoreMembers(more)
    ensures s == w + SpellMember(name, colon, value, more, rest) && Utf8.ValidUtf8(rest)
    ensures
      var b := Bind(MeanItems(name), Mean(value, env.conv, env.reject));
      var bs := MeanMoreMembers(more, env.conv, env.reject);
      b.Some? && bs.Some? && BuildOn(done, [b.value] + bs.value, env.reject) == Some(j)
    decreases |s|, 3
  {
    hide Utf8.ValidUtf8, P.Next, P.Value;
    var a := P.Next(s, env);
    w, name := StringSplit(s, env);
    var b := P.Next(a.rest, env);
    var before := PunctSplit(a.rest, env);
    var c := P.Next(b.rest, env);
    var r := P.Value(c.token, c.rest, env).value;
    var after;
    after, value := ValueSound(b.rest, env, r.0, r.1);
    colon := Sep(before, after);
    var next := J.ObjectSet(done, a.token.s, r.0);
    more := MoreMembersSound(r.1, next, env, j, rest);
    var bs := MeanMoreMembers(more, env.conv, env.reject).value;
    assert ([(a.token.s, r.0)] + bs)[1..] == bs;
  }

  lemma {:induction false} MoreMembersSound(s: bytes, done: J.Json, env: P.Env, j: J.Json, rest: bytes)
    returns (more: MoreMembers)
    requires Utf8.ValidUtf8(s) && done.Obj? && P.MoreMembers(done, s, env) == Some((j, rest))
    ensures WfMoreMembers(more) && s == SpellMoreMembers(more, rest) && Utf8.ValidUtf8(rest)
    ensures var bs := MeanMoreMembers(more, env.conv, env.reject);
      bs.Some? && BuildOn(done, bs.value, env.reject) == Some(j)
    decreases |s|, 0
  {
    hide Utf8.ValidUtf8, P.Next, P.Value;
    var a := P.Next(s, env);
    var before := PunctSplit(s, env);
    if a.token == L.Punct(RBRACE) {
      more := LastMember(Sep(before, []));
      assert [] + rest == rest;
    } else {
      var w, name, colon, value, more' := MembersSound(a.rest, done, env, j, rest);
      more := NextMember(Sep(before, w), name, colon, value, more');
    }
  }
}
