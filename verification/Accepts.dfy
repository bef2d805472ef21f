/** Theorems about json_loads: which texts it accepts, and what it builds from them. */
module Accepts {
  import opened Basics
  import opened Grammar
  import opened LexGrammar
  import opened ParseGrammar
  import Utf8
  import J = Json
  import L = LexSpec
  import P = ParseSpec
  import T = Table

  // ----- texts of the grammar are UTF-8 without NUL -----

  lemma AsciiThen(a: bytes, k: bytes)
    requires forall i :: 0 <= i < |a| ==> 0 < a[i] < 0x80
    ensures Utf8.ValidUtf8(a + k) == Utf8.ValidUtf8(k) && NulFree(a + k) == NulFree(k)
  {
    AsciiPrefix(a + k, |a|);
    assert (a + k)[|a|..] == k;
    NulFreeThen(a, k);
  }

  lemma NulFreeThen(a: bytes, k: bytes)
    requires NulFree(a)
    ensures NulFree(a + k) == NulFree(k)
  {
    assert forall i :: 0 <= i < |k| ==> (a + k)[|a| + i] == k[i];
  }

  lemma EncodingIsNulFree(cp: Utf8.scalar)
    requires cp > 0
    ensures NulFree(Utf8.Encoding(cp))
  {
  }

  lemma SepIsUtf8(s: Sep, c: byte, k: bytes)
    requires WfSep(s) && L.IsPunct(c)
    ensures Utf8.ValidUtf8(SpellSep(s, c, k)) == Utf8.ValidUtf8(k) && NulFree(SpellSep(s, c, k)) == NulFree(k)
  {
    hide Utf8.ValidUtf8, NulFree;
    AsciiThen(s.after, k);
    AsciiThen([c], s.after + k);
    AsciiThen(s.before, [c] + (s.after + k));
  }

  lemma {:induction false} ItemsAreUtf8(items: seq<Item>, k: bytes)
    requires WfItems(items)
    ensures Utf8.ValidUtf8(SpellItems(items, k)) == Utf8.ValidUtf8(k) && NulFree(SpellItems(items, k)) == NulFree(k)
    decreases |items|
  {
    hide Utf8.ValidUtf8, NulFree;
    if items != [] {
      var t := SpellItems(items[1..], k);
      ItemsAreUtf8(items[1..], k);
      match items[0] {
        case Unescaped(cp) =>
          Utf8.EncodedIsValid([cp], t);
          EncodingIsNulFree(cp);
          NulFreeThen(Utf8.Encoding(cp), t);
          assert Utf8.EncodingAll([cp]) == Utf8.Encoding(cp);
        case Escaped(c) => AsciiThen([BACKSLASH, c], t);
        case Unicode(hex) => AsciiThen([BACKSLASH, LOWER_U] + hex, t);
      }
    }
  }

  lemma StringIsUtf8(items: seq<Item>, k: bytes)
    requires WfItems(items)
    ensures Utf8.ValidUtf8(SpellString(items, k)) == Utf8.ValidUtf8(k) && NulFree(SpellString(items, k)) == NulFree(k)
  {
    hide Utf8.ValidUtf8, NulFree;
    AsciiThen([QUOTE], k);
    ItemsAreUtf8(items, [QUOTE] + k);
    AsciiThen([QUOTE], SpellItems(items, [QUOTE] + k));
  }

  lemma {:induction false} SpellIsUtf8(v: Value, k: bytes)
    requires Wf(v)
    ensures Utf8.ValidUtf8(Spell(v, k)) == Utf8.ValidUtf8(k) && NulFree(Spell(v, k)) == NulFree(k)
    decreases Size(v)
  {
    hide Utf8.ValidUtf8, NulFree;
    match v {
      case NullLit => AsciiThen(NULL_TEXT, k);
      case TrueLit => AsciiThen(TRUE_TEXT, k);
      case FalseLit => AsciiThen(FALSE_TEXT, k);
      case NumberLit(n) => NumberIsAscii(n); AsciiThen(SpellNumber(n), k);
      case StringLit(items) => StringIsUtf8(items, k);
      case ArrayLit(open, elems) =>
        SepIsUtf8(open, LBRACKET, SpellElems(elems, k));
        match elems {
          case NoElems(close) => SepIsUtf8(close, RBRACKET, k);
          case SomeElems(first, more) =>
            assert ElemsSize(elems) == 1 + Size(first) + MoreElemsSize(more);
            SpellIsUtf8(first, SpellMoreElems(more, k));
            MoreElemsAreUtf8(more, k);
        }
      case ObjectLit(open, members) =>
        SepIsUtf8(open, LBRACE, SpellMembers(members, k));
        match members {
          case NoMembers(close) => SepIsUtf8(close, RBRACE, k);
          case SomeMembers(name, colon, value, more) =>
            assert MembersSize(members) == 1 + Size(value) + MoreMembersSize(more);
            MemberIsUtf8(name, colon, value, more, k);
        }
    }
  }

  lemma {:induction false} MoreElemsAreUtf8(e: MoreElems, k: bytes)
    requires WfMoreElems(e)
    ensures Utf8.ValidUtf8(SpellMoreElems(e, k)) == Utf8.ValidUtf8(k) && NulFree(SpellMoreElems(e, k)) == NulFree(k)
    decreases MoreElemsSize(e)
  {
    hide Utf8.ValidUtf8, NulFree;
    match e {
      case LastElem(close) => SepIsUtf8(close, RBRACKET, k);
      case NextElem(comma, value, more) =>
        SepIsUtf8(comma, COMMA, Spell(value, SpellMoreElems(more, k)));
        SpellIsUtf8(value, SpellMoreElems(more, k));
        MoreElemsAreUtf8(more, k);
    }
  }

  lemma {:induction false} MemberIsUtf8(name: seq<Item>, colon: Sep, value: Value, more: MoreMembers, k: bytes)
    requires WfItems(name) && WfSep(colon) && Wf(value) && WfMoreMembers(more)
    ensures Utf8.ValidUtf8(SpellMember(name, colon, value, more, k)) == Utf8.ValidUtf8(k)
      && NulFree(SpellMember(name, colon, value, more, k)) == NulFree(k)
    decreases Size(value) + MoreMembersSize(more)
  {
    hide Utf8.ValidUtf8, NulFree;
    var t := Spell(value, SpellMoreMembers(more, k));
    StringIsUtf8(name, SpellSep(colon, COLON, t));
    SepIsUtf8(colon, COLON, t);
    SpellIsUtf8(value, SpellMoreMembers(more, k));
    match more {
      case LastMember(close) => SepIsUtf8(close, RBRACE, k);
      case NextMember(comma, name', colon', value', more') =>
        SepIsUtf8(comma, COMMA, SpellMember(name', colon', value', more', k));
        MemberIsUtf8(name', colon', value', more', k);
    }
  }

  // ----- acceptance -----

  /** The bytes a parse can read: the input up to the first sequence that is not UTF-8. */
  function Readable(data: bytes): bytes { data[..P.ReadableLength(data)] }

  /**
   * White space before, a value v meaning j, then k. Without the EOF check k is anything that does not
   * lengthen the last token; with it, k is white space and the whole input is UTF-8.
   */
  ghost predicate Reads(data: bytes, flags: P.LoadFlags, conv: L.Strtod, j: J.Json, before: bytes, v: Value, k: bytes) {
    && AllWs(before) && Wf(v) && Mean(v, conv, flags.rejectDuplicates) == Some(j)
    && (flags.decodeAny || IsText(v))
    && Readable(data) == before + Spell(v, k) && Ends(v, k)
    && (flags.disableEofCheck || (AllWs(k) && Utf8.ValidUtf8(data)))
  }

  /** json_loads succeeds exactly on the texts of the grammar, for all eight flag combinations. */
  lemma {:induction false} LoadsExactly(data: bytes, flags: P.LoadFlags, conv: L.Strtod, j: J.Json)
    ensures P.Loads(data, flags, conv) == Some(j) <==>
      exists before, v, k :: Reads(data, flags, conv, j, before, v, k)
  {
    if P.Loads(data, flags, conv) == Some(j) {
      var before, v, k := LoadsSound(data, flags, conv, j);
    }
    if exists before, v, k :: Reads(data, flags, conv, j, before, v, k) {
      var before, v, k :| Reads(data, flags, conv, j, before, v, k);
      LoadsComplete(data, flags, conv, j, before, v, k);
    }
  }

  function EnvOf(data: bytes, flags: P.LoadFlags, conv: L.Strtod): P.Env {
    P.Env(P.ReadableLength(data) < |data|, conv, flags.rejectDuplicates)
  }

  lemma EofIffWs(s: bytes, env: P.Env)
    ensures P.Next(s, env).token == L.Eof <==> AllWs(s) && !env.bad
  {}

  lemma {:induction false} LoadsSound(data: bytes, flags: P.LoadFlags, conv: L.Strtod, j: J.Json)
    returns (before: bytes, v: Value, k: bytes)
    requires P.Loads(data, flags, conv) == Some(j)
    ensures Reads(data, flags, conv, j, before, v, k)
  {
    hide Utf8.ValidUtf8, P.Next, P.Value, Ends;
    P.ReadableIsValid(data);
    var s, env := Readable(data), EnvOf(data, flags, conv);
    var a := P.Next(s, env);
    k := P.Value(a.token, a.rest, env).value.1;
    before, v := ValueSound(s, env, j, k);
    EofIffWs(k, env);
  }

  lemma HeadToken(v: Value, before: bytes, k: bytes, env: P.Env)
    requires AllWs(before) && Wf(v) && IsText(v)
    ensures var t := P.Next(before + Spell(v, k), env).token; t == L.Punct(LBRACKET) || t == L.Punct(LBRACE)
  {
    if v.ArrayLit? {
      PunctRead(before, v.openArray, LBRACKET, SpellElems(v.elems, k), env);
    } else {
      PunctRead(before, v.openObject, LBRACE, SpellMembers(v.members, k), env);
    }
  }

  lemma {:induction false} LoadsComplete(
    data: bytes, flags: P.LoadFlags, conv: L.Strtod, j: J.Json, before: bytes, v: Value, k: bytes)
    requires Reads(data, flags, conv, j, before, v, k)
    ensures P.Loads(data, flags, conv) == Some(j)
  {
    hide Utf8.ValidUtf8, P.Next, P.Value, Ends;
    P.ReadableIsValid(data);
    var s, env := Readable(data), EnvOf(data, flags, conv);
    ValueComplete(before, v, k, env);
    if !flags.decodeAny { HeadToken(v, before, k, env); }
    TailIsWs(v);
    EofIffWs(Tail(v) + k, env);
  }

  /** Pulling white space around an array or object into its outermost brackets. */
  lemma Absorb(before: bytes, v: Value, k: bytes) returns (v': Value)
    requires AllWs(before) && AllWs(k) && Wf(v) && IsText(v)
    ensures Wf(v') && IsText(v') && Spell(v', []) == before + Spell(v, k)
    ensures forall conv, reject :: Mean(v', conv, reject) == Mean(v, conv, reject)
  {
    hide WfElems, WfMembers, MeanElems, MeanMembers, SpellElems, SpellMembers, BuildOn;
    match v {
      case ArrayLit(open, elems) =>
        var elems' := AbsorbElems(elems, k);
        v' := ArrayLit(Sep(before + open.before, open.after), elems');
      case ObjectLit(open, members) =>
        var members' := AbsorbMembers(members, k);
        v' := ObjectLit(Sep(before + open.before, open.after), members');
    }
  }

  lemma AbsorbClose(close: Sep, c: byte, k: bytes) returns (close': Sep)
    requires WfSep(close) && AllWs(k)
    ensures WfSep(close') && SpellSep(close', c, []) == SpellSep(close, c, k)
  {
    close' := Sep(close.before, close.after + k);
    assert (close.after + k) + [] == close.after + k;
  }

  lemma AbsorbElems(e: Elems, k: bytes) returns (e': Elems)
    requires WfElems(e) && AllWs(k)
    ensures WfElems(e') && SpellElems(e', []) == SpellElems(e, k)
    ensures forall conv, reject :: MeanElems(e', conv, reject) == MeanElems(e, conv, reject)
  {
    match e {
      case NoElems(close) => var c := AbsorbClose(close, RBRACKET, k); e' := NoElems(c);
      case SomeElems(first, more) => var m := AbsorbMoreElems(more, k); e' := SomeElems(first, m);
    }
  }

  lemma {:induction false} AbsorbMoreElems(e: MoreElems, k: bytes) returns (e': MoreElems)
    requires WfMoreElems(e) && AllWs(k)
    ensures WfMoreElems(e') && SpellMoreElems(e', []) == SpellMoreElems(e, k)
    ensures forall conv, reject :: MeanMoreElems(e', conv, reject) == MeanMoreElems(e, conv, reject)
  {
    match e {
      case LastElem(close) => var c := AbsorbClose(close, RBRACKET, k); e' := LastElem(c);
      case NextElem(comma, value, more) => var m := AbsorbMoreElems(more, k); e' := NextElem(comma, value, m);
    }
  }

  lemma AbsorbMembers(e: Members, k: bytes) returns (e': Members)
    requires WfMembers(e) && AllWs(k)
    ensures WfMembers(e') && SpellMembers(e', []) == SpellMembers(e, k)
    ensures forall conv, reject :: MeanMembers(e', conv, reject) == MeanMembers(e, conv, reject)
  {
    match e {
      case NoMembers(close) => var c := AbsorbClose(close, RBRACE, k); e' := NoMembers(c);
      case SomeMembers(name, colon, value, more) =>
        var m := AbsorbMoreMembers(more, k);
        e' := SomeMembers(name, colon, value, m);
    }
  }

  lemma {:induction false} AbsorbMoreMembers(e: MoreMembers, k: bytes) returns (e': MoreMembers)
    requires WfMoreMembers(e) && AllWs(k)
    ensures WfMoreMembers(e') && SpellMoreMembers(e', []) == SpellMoreMembers(e, k)
    ensures forall conv, reject :: MeanMoreMembers(e', conv, reject) == MeanMoreMembers(e, conv, reject)
  {
    match e {
      case LastMember(close) => var c := AbsorbClose(close, RBRACE, k); e' := LastMember(c);
      case NextMember(comma, name, colon, value, more) =>
        var m := AbsorbMoreMembers(more, k);
        e' := NextMember(comma, name, colon, value, m);
    }
  }

  /** The default: json_loads accepts exactly the JSON texts of the RFC that have a meaning. */
  lemma {:induction false} LoadsExactlyJsonText(data: bytes, reject: bool, conv: L.Strtod, j: J.Json)
    ensures P.Loads(data, P.LoadFlags(reject, false, false), conv) == Some(j) <==>
      exists v :: Wf(v) && IsText(v) && Spell(v, []) == data && Mean(v, conv, reject) == Some(j)
  {
    hide Utf8.ValidUtf8, P.Loads, Spell, Mean, Wf;
    var flags := P.LoadFlags(reject, false, false);
    P.ReadableIsValid(data);
    if P.Loads(data, flags, conv) == Some(j) {
      var before, v, k := LoadsSound(data, flags, conv, j);
      var v' := Absorb(before, v, k);
      assert data == Readable(data);
    }
    if exists v :: Wf(v) && IsText(v) && Spell(v, []) == data && Mean(v, conv, reject) == Some(j) {
      var v :| Wf(v) && IsText(v) && Spell(v, []) == data && Mean(v, conv, reject) == Some(j);
      SpellIsUtf8(v, []);
      EmptyIsUtf8();
      assert [] + data == data && Readable(data) == data;
      LoadsComplete(data, flags, conv, j, [], v, []);
    }
  }

  const NOWHERE: Sep := Sep([], [])

  lemma OneMoreMeant(value: Value, more: MoreElems, j: J.Json, js: seq<J.Json>, conv: L.Strtod)
    requires Wf(value) && WfMoreElems(more) && Mean(value, conv, false) == Some(j)
    requires MeanMoreElems(more, conv, false) == Some(js)
    ensures WfMoreElems(NextElem(NOWHERE, value, more))
    ensures MeanMoreElems(NextElem(NOWHERE, value, more), conv, false) == Some([j] + js)
  {
  }

  const LITERALS: Value :=
    ArrayLit(NOWHERE, SomeElems(TrueLit, NextElem(NOWHERE, FalseLit, NextElem(NOWHERE, NullLit, LastElem(NOWHERE)))))

  lemma LiteralsSpell()
    ensures Spell(LITERALS, []) == Ascii("[true,false,null]")
  {
    var last := NextElem(NOWHERE, NullLit, LastElem(NOWHERE));
    var more := NextElem(NOWHERE, FalseLit, last);
    NextSpelled(NullLit, LastElem(NOWHERE));
    NextSpelled(FalseLit, last);
    assert SpellMoreElems(LastElem(NOWHERE), []) == [RBRACKET];
    assert Spell(LITERALS, []) == [LBRACKET] + (TRUE_TEXT + SpellMoreElems(more, []));
    hide SpellMoreElems;
  }

  lemma NextSpelled(v: Value, more: MoreElems)
    ensures SpellMoreElems(NextElem(NOWHERE, v, more), []) == [COMMA] + Spell(v, SpellMoreElems(more, []))
  {
  }

  lemma LiteralsMean(conv: L.Strtod)
    ensures Wf(LITERALS) && Mean(LITERALS, conv, false) == Some(J.Arr([J.True, J.False, J.Null]))
  {
    var last := NextElem(NOWHERE, NullLit, LastElem(NOWHERE));
    OneMoreMeant(NullLit, LastElem(NOWHERE), J.Null, [], conv);
    assert [J.Null] + [] == [J.Null];
    OneMoreMeant(FalseLit, last, J.False, [J.Null], conv);
    assert [J.False] + [J.Null] == [J.False, J.Null];
    hide MeanMoreElems;
    assert MeanElems(LITERALS.elems, conv, false) == Some([J.True] + [J.False, J.Null]);
    assert [J.True] + [J.False, J.Null] == [J.True, J.False, J.Null];
  }

  /** The three literal names, as a caller writes them. */
  lemma LiteralsLoad(conv: L.Strtod)
    ensures P.Loads(Ascii("[true,false,null]"), P.LoadFlags(false, false, false), conv) ==
      Some(J.Arr([J.True, J.False, J.Null]))
  {
    LiteralsMean(conv);
    LiteralsSpell();
    assert IsText(LITERALS);
    hide P.Loads, Spell, Mean, Wf, LITERALS;
    LoadsExactlyJsonText(Ascii("[true,false,null]"), false, conv, J.Arr([J.True, J.False, J.Null]));
  }

  lemma EmptyIsUtf8()
    ensures Utf8.ValidUtf8([])
  {}

  // ----- what the parser builds is well-formed -----

  lemma EncodingIsText(cp: Utf8.scalar)
    requires cp > 0
    ensures J.ValidText(Utf8.Encoding(cp))
  {
    hide Utf8.ValidUtf8;
    Utf8.EncodedIsValid([cp], []);
    EmptyIsUtf8();
    assert Utf8.EncodingAll([cp]) + [] == Utf8.Encoding(cp);
  }

  lemma TextConcat(a: bytes, b: bytes)
    requires J.ValidText(a) && J.ValidText(b)
    ensures J.ValidText(a + b)
  {
    hide Utf8.ValidUtf8;
    Utf8.ValidConcat(a, b);
  }

  /** A string that passes both lexer passes is valid NUL-free UTF-8: the unchecked constructors are safe. */
  lemma {:induction false} MeanItemsIsText(items: seq<Item>)
    requires WfItems(items) && MeanItems(items).Some?
    ensures J.ValidText(MeanItems(items).value)
    decreases |items|
  {
    hide J.ValidText, CodeUnit, FourHexDigits, FromSurrogates;
    if items == [] {
      EmptyIsText();
    } else {
      match items[0] {
        case Unescaped(cp) =>
          EncodingIsText(cp);
          MeanItemsIsText(items[1..]);
          TextConcat(Utf8.Encoding(cp), MeanItems(items[1..]).value);
        case Escaped(c) =>
          var cp := Escape(c).value;
          EncodingIsText(cp);
          MeanItemsIsText(items[1..]);
          TextConcat(Utf8.Encoding(cp), MeanItems(items[1..]).value);
        case Unicode(hex) =>
          var w := CodeUnit(hex);
          var cp, n := if HighSurrogate(w) then FromSurrogates(w, CodeUnit(items[1].hex)) else w,
            if HighSurrogate(w) then 2 else 1;
          EncodingIsText(cp);
          MeanItemsIsText(items[n..]);
          TextConcat(Utf8.Encoding(cp), MeanItems(items[n..]).value);
      }
    }
  }

  lemma EmptyIsText()
    ensures J.ValidText([])
  {}

  lemma EmptyObjectIsWf()
    ensures J.Wf(J.EMPTY_OBJECT)
  {}

  lemma {:induction false} BuildIsWf(done: J.Json, bs: Bindings, reject: bool)
    requires done.Obj? && J.Wf(done) && BuildOn(done, bs, reject).Some?
    requires forall i :: 0 <= i < |bs| ==> J.ValidText(bs[i].0) && J.Wf(bs[i].1)
    ensures J.Wf(BuildOn(done, bs, reject).value)
    decreases |bs|
  {
    hide J.Wf, J.ObjectSet, J.ValidText;
    if bs != [] {
      J.ObjectSetKeepsWf(done, bs[0].0, bs[0].1);
      BuildIsWf(J.ObjectSet(done, bs[0].0, bs[0].1), bs[1..], reject);
    }
  }

  /** Whatever a text means is a well-formed value. */
  lemma {:induction false} MeaningIsWf(v: Value, conv: L.Strtod, reject: bool)
    requires Wf(v) && Mean(v, conv, reject).Some?
    ensures J.Wf(Mean(v, conv, reject).value)
    decreases Size(v)
  {
    match v {
      case StringLit(items) => MeanItemsIsText(items);
      case ArrayLit(_, elems) =>
        if elems.SomeElems? {
          assert ElemsSize(elems) == 1 + Size(elems.first) + MoreElemsSize(elems.more);
          MeaningIsWf(elems.first, conv, reject);
          MoreElemsAreWf(elems.more, conv, reject);
        }
      case ObjectLit(_, members) =>
        EmptyObjectIsWf();
        if members.SomeMembers? {
          assert MembersSize(members) == 1 + Size(members.value) + MoreMembersSize(members.more);
          MeanItemsIsText(members.name);
          MeaningIsWf(members.value, conv, reject);
          MoreMembersAreWf(members.more, conv, reject);
        }
        BuildIsWf(J.EMPTY_OBJECT, MeanMembers(members, conv, reject).value, reject);
      case _ =>
    }
  }

  lemma {:induction false} MoreElemsAreWf(e: MoreElems, conv: L.Strtod, reject: bool)
    requires WfMoreElems(e) && MeanMoreElems(e, conv, reject).Some?
    ensures var js := MeanMoreElems(e, conv, reject).value; forall i :: 0 <= i < |js| ==> J.Wf(js[i])
    decreases MoreElemsSize(e)
  {
    if e.NextElem? {
      MeaningIsWf(e.value, conv, reject);
      MoreElemsAreWf(e.more, conv, reject);
    }
  }

  lemma {:induction false} MoreMembersAreWf(m: MoreMembers, conv: L.Strtod, reject: bool)
    requires WfMoreMembers(m) && MeanMoreMembers(m, conv, reject).Some?
    ensures var bs := MeanMoreMembers(m, conv, reject).value;
      forall i :: 0 <= i < |bs| ==> J.ValidText(bs[i].0) && J.Wf(bs[i].1)
    decreases MoreMembersSize(m)
  {
    if m.NextMember? {
      MeanItemsIsText(m.name);
      MeaningIsWf(m.value, conv, reject);
      MoreMembersAreWf(m.more, conv, reject);
    }
  }

  /** json_loads only ever returns well-formed values, whatever its input. */
  lemma {:induction false} LoadedIsWf(data: bytes, flags: P.LoadFlags, conv: L.Strtod)
    requires P.Loads(data, flags, conv).Some?
    ensures J.Wf(P.Loads(data, flags, conv).value)
  {
    hide P.Loads, J.Wf;
    var before, v, k := LoadsSound(data, flags, conv, P.Loads(data, flags, conv).value);
    MeaningIsWf(v, conv, flags.rejectDuplicates);
  }

  // ----- duplicate keys -----

  /** The position of the last binding of key, or None. */
  function LastOf(bs: Bindings, key: bytes): (r: Option<nat>)
    ensures r.Some? ==> r.value < |bs| && bs[r.value].0 == key
    ensures forall i :: 0 <= i < |bs| && bs[i].0 == key ==> r.Some? && i <= r.value
  {
    if bs == [] then None
    else if bs[|bs| - 1].0 == key then Some(|bs| - 1)
    else LastOf(bs[..|bs| - 1], key)
  }

  lemma {:induction false} BuildAppend(done: J.Json, bs: Bindings, b: (bytes, J.Json), reject: bool)
    requires done.Obj?
    ensures BuildOn(done, bs + [b], reject) ==
      match BuildOn(done, bs, reject)
      case None => None
      case Some(o) => if reject && J.ObjectGet(o, b.0).Some? then None else Some(J.ObjectSet(o, b.0, b.1))
    decreases |bs|
  {
    hide J.ObjectSet, J.ObjectGet;
    var all := bs + [b];
    if bs == [] {
      assert all == [b] && all[1..] == [];
    } else {
      assert all[1..] == bs[1..] + [b] && all[0] == bs[0];
      BuildAppend(J.ObjectSet(done, bs[0].0, bs[0].1), bs[1..], b, reject);
    }
  }

  /** The table of done is valid and looks up exactly the last binding of every key. */
  ghost predicate LooksUpLast(o: J.Json, bs: Bindings) {
    && o.Obj? && T.Valid(o.table)
    && forall key :: J.ObjectGet(o, key) == match LastOf(bs, key) case None => None case Some(i) => Some(bs[i].1)
  }

  lemma SetThenGet(o: J.Json, key: bytes, value: J.Json, other: bytes)
    requires o.Obj? && T.Valid(o.table)
    ensures var r := J.ObjectSet(o, key, value);
      T.Valid(r.table) && J.ObjectGet(r, other) == if other == key then Some(value) else J.ObjectGet(o, other)
  {
    hide T.Set, T.Valid, T.Get, T.Map;
    T.SetIsMapUpdate(o.table, key, o.serial, value);
    T.GetIsLookup(T.Set(o.table, key, o.serial, value), other);
    T.GetIsLookup(o.table, other);
  }

  /**
   * A key bound more than once keeps its last value; with the reject flag the object is refused exactly
   * when some key is bound twice.
   */
  lemma {:induction false} DuplicateKeys(bs: Bindings, reject: bool)
    ensures BuildOn(J.EMPTY_OBJECT, bs, reject).Some? <==>
      !(reject && exists i, j :: 0 <= i < j < |bs| && bs[i].0 == bs[j].0)
    ensures BuildOn(J.EMPTY_OBJECT, bs, reject).Some? ==> LooksUpLast(BuildOn(J.EMPTY_OBJECT, bs, reject).value, bs)
    decreases |bs|
  {
    if bs != [] {
      var init, b := bs[..|bs| - 1], bs[|bs| - 1];
      assert bs == init + [b];
      DuplicateKeys(init, reject);
      BuildAppend(J.EMPTY_OBJECT, init, b, reject);
      OneMoreBinding(init, b, reject);
    }
  }

  lemma OneMoreBinding(init: Bindings, b: (bytes, J.Json), reject: bool)
    requires var o := BuildOn(J.EMPTY_OBJECT, init, reject);
      && (o.Some? <==> !(reject && exists i, j :: 0 <= i < j < |init| && init[i].0 == init[j].0))
      && (o.Some? ==> LooksUpLast(o.value, init))
    ensures var bs := init + [b]; var o := BuildOn(J.EMPTY_OBJECT, bs, reject);
      && (o.Some? <==> !(reject && exists i, j :: 0 <= i < j < |bs| && bs[i].0 == bs[j].0))
      && (o.Some? ==> LooksUpLast(o.value, bs))
  {
    hide J.ObjectSet, J.ObjectGet, T.Valid;
    var bs := init + [b];
    BuildAppend(J.EMPTY_OBJECT, init, b, reject);
    assert bs[..|bs| - 1] == init;
    var was := BuildOn(J.EMPTY_OBJECT, init, reject);
    if was.Some? {
      forall key ensures J.ObjectGet(J.ObjectSet(was.value, b.0, b.1), key) ==
        match LastOf(bs, key) case None => None case Some(i) => Some(bs[i].1)
      {
        SetThenGet(was.value, b.0, b.1, key);
      }
      SetThenGet(was.value, b.0, b.1, b.0);
      if reject && J.ObjectGet(was.value, b.0).Some? {
        var i := LastOf(init, b.0).value;
        assert bs[i].0 == bs[|init|].0;
      }
    } else {
      var i, j :| 0 <= i < j < |init| && init[i].0 == init[j].0;
      assert bs[i].0 == bs[j].0;
    }
    if reject && exists i, j :: 0 <= i < j < |bs| && bs[i].0 == bs[j].0 {
      var i, j :| 0 <= i < j < |bs| && bs[i].0 == bs[j].0;
      if was.Some? {
        if j == |init| {
          assert init[i].0 == b.0;
          assert LastOf(init, b.0).Some?;
        }
      }
    }
  }
}
