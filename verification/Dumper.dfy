/** The printer of jansson/dump.c, writing to a sink that never fails, proved against module DumpSpec. */
module Dumper {
  import opened Basics
  import opened JsonHeap
  import D = DumpSpec
  import J = Json
  import T = Table
  import Utf8
  import Utf8Code

  /** The characters of s as they are printed. */
  function Chars(s: bytes, f: D.DumpFlags): bytes { D.CharsText(D.CodePoints(s), f) }

  /** The first character of s, and the text of the others. */
  lemma CharsStep(s: bytes, f: D.DumpFlags)
    requires s != [] && Utf8.ValidUtf8(s)
    ensures Utf8.FirstChar(s).Some?
    ensures var (n, cp) := Utf8.FirstChar(s).value;
      && Utf8.IsScalar(cp) && Utf8.ValidUtf8(s[n..]) && s[..n] == Utf8.Encoding(cp)
      && Chars(s, f) == D.CharText(cp, f) + Chars(s[n..], f)
  {
    Utf8.EncodeInvertsCheck(s);
    hide Utf8.FirstChar, Utf8.Encoding, D.CharText;
    var (n, cp) := Utf8.FirstChar(s).value;
    var cps := Utf8.Decoded(s);
    assert cps == [cp] + Utf8.Decoded(s[n..]);
    assert cps[1..] == Utf8.Decoded(s[n..]);
  }

  lemma SpacesSum(a: nat, b: nat)
    ensures D.Spaces(a) + D.Spaces(b) == D.Spaces(a + b)
  {
  }

  class Dumper {
    const f: D.DumpFlags
    const fmt: D.Dtostr
    /** What the sink received: module StrBuffer implements it. */
    var out: bytes

    constructor (f: D.DumpFlags, fmt: D.Dtostr)
      ensures this.f == f && this.fmt == fmt && out == []
    {
      this.f := f;
      this.fmt := fmt;
      out := [];
    }

    method Dump(text: bytes)
      modifies `out
      ensures out == old(out) + text
    {
      out := out + text;
    }

    /** dump_indent. */
    method DumpIndent(depth: nat, space: bool)
      modifies `out
      ensures out == old(out) + D.Indent(f, depth, space)
    {
      if f.indent > 0 {
        Dump([LF]);
        ghost var base := out;
        for i := 0 to depth
          invariant out == base + D.Spaces(f.indent * i)
        {
          SpacesSum(f.indent * i, f.indent);
          assert f.indent * i + f.indent == f.indent * (i + 1);
          Dump(seq(f.indent, _ => SPACE));
        }
      } else if space && !f.compact {
        Dump([SPACE]);
      }
    }

    /** The switch of dump_string; the masks and shifts are written as quotient and remainder. */
    method Escape(codepoint: Utf8.scalar) returns (text: bytes)
      ensures text == D.EscapeText(codepoint)
    {
      hide D.Hex04;
      if codepoint == BACKSLASH {
        text := [BACKSLASH, BACKSLASH];
      } else if codepoint == QUOTE {
        text := [BACKSLASH, QUOTE];
      } else if codepoint == 0x08 {
        text := [BACKSLASH, LOWER_B];
      } else if codepoint == 0x0C {
        text := [BACKSLASH, LOWER_F];
      } else if codepoint == LF {
        text := [BACKSLASH, LOWER_N];
      } else if codepoint == CR {
        text := [BACKSLASH, LOWER_R];
      } else if codepoint == TAB {
        text := [BACKSLASH, LOWER_T];
      } else if codepoint == SLASH {
        text := [BACKSLASH, SLASH];
      } else if codepoint < 0x10000 {
        text := [BACKSLASH, LOWER_U] + D.Hex04(codepoint);
      } else {
        var rest := codepoint - 0x10000;
        assert rest / 0x400 < 0x400;
        var first := 0xD800 + rest / 0x400 % 0x400;
        var last := 0xDC00 + rest % 0x400;
        text := [BACKSLASH, LOWER_U] + D.Hex04(first) + ([BACKSLASH, LOWER_U] + D.Hex04(last));
      }
    }

    /**
     * The inner loop of dump_string: passes over the characters from str on that are printed as they
     * are. It stops with end past the character that needs an escape, or with end == pos at the end.
     */
    method Plain(str: bytes, start: nat) returns (ok: bool, pos: nat, end: nat, codepoint: int)
      requires start <= |str| && NulFree(str)
      ensures ok <== Utf8.ValidUtf8(str[start..])
      ensures ok ==> start <= pos <= end <= |str|
      ensures ok && end == pos ==> pos == |str|
      ensures ok && Utf8.ValidUtf8(str[start..]) ==>
        && Utf8.ValidUtf8(str[pos..])
        && Chars(str[start..], f) == str[start..pos] + Chars(str[pos..], f)
      ensures ok && end > pos ==>
        Utf8.FirstChar(str[pos..]) == Some((end - pos, codepoint)) && D.NeedsEscape(codepoint, f)
      ensures ok && !Utf8.ValidUtf8(str[start..]) ==> end > pos && !Utf8.ValidUtf8(str[pos..])
    {
      hide Utf8.FirstChar, Utf8.ValidUtf8, Chars, Utf8.Encoding;
      pos, end, codepoint := start, start, 0;
      ghost var valid := Utf8.ValidUtf8(str[start..]);
      while end < |str|
        invariant start <= pos == end <= |str|
        invariant valid == Utf8.ValidUtf8(str[pos..])
        invariant valid ==> Chars(str[start..], f) == str[start..pos] + Chars(str[pos..], f)
      {
        var next := Utf8Code.Iterate(str, pos);
        FirstDecides(str[pos..]);
        if next == None {
          return false, pos, end, codepoint;
        }
        end, codepoint := next.value.0, next.value.1;
        if D.NeedsEscape(codepoint, f) {
          break;
        }
        if valid {
          PlainStep(str, start, pos, f);
        }
        pos := end;
      }
      if pos == |str| {
        EmptyIsValid(str[pos..]);
      }
      ok := true;
    }

    /** dump_string: it fails exactly on text that is not UTF-8. */
    method DumpString(str: bytes) returns (ok: bool)
      requires NulFree(str)
      modifies `out
      ensures ok <==> Utf8.ValidUtf8(str)
      ensures ok ==> out == old(out) + D.StringText(str, f)
    {
      hide Utf8.FirstChar, Utf8.ValidUtf8, Chars, Utf8.Encoding, D.CharText, D.EscapeText, NulFree;
      ghost var base := out + [QUOTE];
      Dump([QUOTE]);
      var start := 0;
      assert str[0..] == str;
      while true
        invariant start <= |str| && Utf8.ValidUtf8(str[start..]) == Utf8.ValidUtf8(str)
        invariant Utf8.ValidUtf8(str) ==> out + Chars(str[start..], f) == base + Chars(str, f)
        decreases |str| - start
      {
        ghost var before := out;
        var found, pos, end, codepoint := Plain(str, start);
        if !found {
          return false;
        }
        if pos != start {
          Dump(str[start..pos]);
        } else {
          assert str[start..pos] == [];
        }
        assert out == before + str[start..pos];
        if end == pos {
          LastStep(str, start, pos, before, base, f);
          break;
        }
        EscapeStep(str, start, pos, before, out, base, f);
        var text := Escape(codepoint);
        Dump(text);
        start := end;
      }
      Dump([QUOTE]);
      WholeString(old(out), str, f);
      ok := true;
    }

    /** The cases of do_dump that follow no reference. */
    method DumpLeaf(j: J.Json) returns (ok: bool)
      requires !j.Arr? && !j.Obj? && J.Wf(j)
      modifies `out
      ensures ok && forall depth :: out == old(out) + D.Text(j, f, fmt, depth)
    {
      ok := true;
      match j {
        case Null => Dump(NULL_TEXT);
        case True => Dump(TRUE_TEXT);
        case False => Dump(FALSE_TEXT);
        case Int(i) => Dump(D.IntText(i));
        case Real(r) => Dump(fmt(r));
        case Str(s) => ok := DumpString(s);
      }
    }

    /**
     * do_dump. The containers in open have their dump under way, and exactly they are marked. It fails
     * exactly when following references from the node leads back into one of them.
     */
    method DoDump(node: Node, depth: nat, ghost heap: Memory, ghost open: set<Node>) returns (ok: bool)
      requires Closed(heap) && Stored(heap) && node in heap && Marked(heap, open)
      modifies `out, heap.Keys`visited
      ensures ok <==> Unfold(node, open, heap).Some?
      ensures ok ==> Marked(heap, open) && out == old(out) + D.Text(Unfold(node, open, heap).value, f, fmt, depth)
      ensures !ok ==> MarkedWithin(heap, open)
      decreases |heap.Keys - open|, 3
    {
      hide D.Text, J.Wf, Closed, Stored, Marked, MarkedWithin;
      NodeStored(node, heap);
      AtNode(node, heap);
      match node.content {
        case Leaf(j) => ok := DumpLeaf(j);
        case Array(elems) => ok := DumpArray(node, elems, depth, heap, open);
        case Object(table, serial) => ok := DumpObject(node, table, serial, depth, heap, open);
      }
    }

    /** The mark a container gets on the way in; already marked, it loses the mark and the dump fails. */
    method Enter(node: Node, ghost heap: Memory, ghost open: set<Node>) returns (ok: bool)
      requires node in heap && Marked(heap, open)
      modifies node`visited
      ensures ok <==> node !in open
      ensures ok ==> Marked(heap, open + {node})
      ensures !ok ==> MarkedWithin(heap, open)
    {
      ok := !node.visited;
      node.visited := ok;
    }

    /** The mark is cleared on the way out, after success and after failure. */
    method Leave(node: Node, ghost heap: Memory, ghost open: set<Node>)
      requires node in heap && node !in open
      modifies node`visited
      ensures old(Marked(heap, open + {node})) ==> Marked(heap, open)
      ensures old(MarkedWithin(heap, open + {node})) ==> MarkedWithin(heap, open)
    {
      node.visited := false;
    }

    /** The array case of do_dump. */
    method DumpArray(node: Node, elems: seq<Node>, depth: nat, ghost heap: Memory, ghost open: set<Node>)
      returns (ok: bool)
      requires Closed(heap) && Stored(heap) && node in heap && Marked(heap, open) && heap[node] == Array(elems)
      modifies `out, heap.Keys`visited
      ensures ok <==> Unfold(node, open, heap).Some?
      ensures ok ==> Marked(heap, open) && out == old(out) + D.Text(Unfold(node, open, heap).value, f, fmt, depth)
      ensures !ok ==> MarkedWithin(heap, open)
      decreases |heap.Keys - open|, 2
    {
      hide D.Text, D.ElemsText, D.Indent, Closed, Unfold, UnfoldAll, Marked, MarkedWithin;
      UnfoldNode(node, open, heap);
      ok := Enter(node, heap, open);
      if !ok {
        return;
      }
      OpenFewer(node, heap, open);
      Dump([LBRACKET]);
      ghost var all := UnfoldAll(elems, open + {node}, heap);
      if |elems| == 0 {
        Leave(node, heap, open);
        Dump([RBRACKET]);
      } else {
        DumpIndent(depth + 1, false);
        ok := DumpElements(elems, depth, heap, open + {node});
        Leave(node, heap, open);
        if !ok {
          return;
        }
        Dump([RBRACKET]);
      }
      ArrayDone(old(out), all.value, f, fmt, depth);
    }

    /** The object case of do_dump. */
    method DumpObject(node: Node, table: T.Table<Node>, serial: nat, depth: nat, ghost heap: Memory,
        ghost open: set<Node>)
      returns (ok: bool)
      requires Closed(heap) && Stored(heap) && node in heap && Marked(heap, open) && heap[node] == Object(table, serial)
      modifies `out, heap.Keys`visited
      ensures ok <==> Unfold(node, open, heap).Some?
      ensures ok ==> Marked(heap, open) && out == old(out) + D.Text(Unfold(node, open, heap).value, f, fmt, depth)
      ensures !ok ==> MarkedWithin(heap, open)
      decreases |heap.Keys - open|, 2
    {
      hide D.Text, D.EntriesText, D.Indent, Closed, Stored, Unfold, UnfoldAll, Marked, MarkedWithin, D.PrintOrder,
        T.Valid;
      hide Rebuild, Zip, Held;
      UnfoldNode(node, open, heap);
      ok := Enter(node, heap, open);
      if !ok {
        return;
      }
      OpenFewer(node, heap, open);
      Dump([LBRACE]);
      ghost var all := UnfoldAll(Held(heap[node]), open + {node}, heap);
      if |table.pairs| == 0 {
        Leave(node, heap, open);
        Dump([RBRACE]);
      } else {
        DumpIndent(depth + 1, false);
        var keys := OrderedKeys(table.pairs);
        ok := DumpMembers(node, table, serial, keys, depth, heap, open + {node});
        Leave(node, heap, open);
        if !ok {
          return;
        }
        Dump([RBRACE]);
      }
      ObjectDone(old(out), heap[node], all.value, f, fmt, depth);
    }

    /**
     * The keys in the order the members are printed. Without a sort that is the order of the list;
     * qsort can only give this, since no two keys and no two serials are equal.
     */
    method OrderedKeys(pairs: seq<T.Pair<Node>>) returns (keys: seq<T.Pair<()>>)
      ensures keys == D.PrintOrder(Keys(pairs), f)
    {
      keys := [];
      for i := 0 to |pairs|
        invariant keys == Keys(pairs)[..i]
      {
        keys := keys + [T.Pair(pairs[i].key, pairs[i].serial, ())];
      }
      assert keys == Keys(pairs);
      if f.sortKeys || f.preserveOrder {
        keys := D.Sort(keys, f.sortKeys);
      }
    }

    /** A key and the separator; the result of dump_string is ignored, as in the code. */
    method DumpKey(key: bytes)
      requires J.ValidText(key)
      modifies `out
      ensures out == old(out) + D.StringText(key, f) + D.Separator(f)
    {
      var printed := DumpString(key);
      Dump(if f.compact then [COLON] else [COLON, SPACE]);
    }

    /** What follows an element or a member. */
    method DumpNext(last: bool, depth: nat)
      modifies `out
      ensures out == old(out) + if last then D.Indent(f, depth, false) else [COMMA] + D.Indent(f, depth + 1, true)
    {
      if last {
        DumpIndent(depth, false);
      } else {
        Dump([COMMA]);
        DumpIndent(depth + 1, true);
      }
    }

    /** The loop of do_dump over the elements of an array. */
    method DumpElements(elems: seq<Node>, depth: nat, ghost heap: Memory, ghost open: set<Node>) returns (ok: bool)
      requires Closed(heap) && Stored(heap) && elems != [] && Marked(heap, open)
      requires forall c :: c in elems ==> c in heap
      modifies `out, heap.Keys`visited
      ensures ok <==> UnfoldAll(elems, open, heap).Some?
      ensures ok ==> Marked(heap, open)
      ensures ok ==> out + [RBRACKET] == old(out) + D.ElemsText(UnfoldAll(elems, open, heap).value, f, fmt, depth)
      ensures !ok ==> MarkedWithin(heap, open)
      decreases |heap.Keys - open|, 4
    {
      hide D.Text, D.ElemsText, D.Indent, Closed;
      ghost var all := UnfoldAll(elems, open, heap);
      ghost var base := out;
      UnfoldEach(elems, open, heap);
      if all.Some? {
        assert all.value[0..] == all.value;
      }
      var i := 0;
      while i < |elems|
        invariant 0 <= i <= |elems| && Marked(heap, open)
        invariant forall k :: 0 <= k < i ==> Unfold(elems[k], open, heap).Some?
        invariant all.Some? ==>
          out + ElemsRest(all.value, i, f, fmt, depth) == base + D.ElemsText(all.value, f, fmt, depth)
      {
        ghost var before := out;
        assert elems[i] in elems;
        ok := DoDump(elems[i], depth + 1, heap, open);
        if !ok {
          return false;
        }
        DumpNext(i == |elems| - 1, depth);
        if all.Some? {
          ElemStep(all.value, i, before, out, f, fmt, depth);
        }
        i := i + 1;
      }
      ok := true;
    }

    /**
     * The loops of do_dump over the members of an object, in the order of keys. The sorting loop looks
     * each value up by its key; the other one takes it from the iterator.
     */
    method DumpMembers(node: Node, table: T.Table<Node>, serial: nat, keys: seq<T.Pair<()>>, depth: nat,
                       ghost heap: Memory, ghost open: set<Node>)
      returns (ok: bool)
      requires Closed(heap) && Stored(heap) && node in heap && Marked(heap, open) && heap[node] == Object(table, serial)
      requires keys == D.PrintOrder(Keys(table.pairs), f) && table.pairs != []
      requires forall c :: c in Held(heap[node]) ==> c in heap
      modifies `out, heap.Keys`visited
      ensures ok <==> UnfoldAll(Held(heap[node]), open, heap).Some?
      ensures ok ==> Marked(heap, open)
      ensures ok ==> var qs := D.PrintOrder(Zip(table.pairs, UnfoldAll(Held(heap[node]), open, heap).value), f);
        qs != [] && out + [RBRACE] == old(out) + D.EntriesText(qs, f, fmt, depth)
      ensures !ok ==> MarkedWithin(heap, open)
      decreases |heap.Keys - open|, 4
    {
      hide D.Text, D.EntriesText, D.Indent, D.Separator, D.StringText, Closed, Stored, Unfold, UnfoldAll, Marked,
        MarkedWithin,
        D.PrintOrder, T.Valid, T.Get, J.ValidText;
      AtNode(node, heap);
      ghost var held := Held(heap[node]);
      ghost var all := UnfoldAll(held, open, heap);
      ghost var qs := if all.Some? then D.PrintOrder(Zip(table.pairs, all.value), f) else [];
      ghost var base := out;
      KeysCount(table.pairs, f);
      if all.Some? {
        EntriesCount(table.pairs, all.value, f);
      }
      var i := 0;
      while i < |keys|
        invariant 0 <= i <= |keys| && Marked(heap, open)
        invariant forall m :: 0 <= m < i ==> Dumped(keys[m].key, table, open, heap)
        invariant all.Some? ==> out + EntriesRest(qs, i, f, fmt, depth) == base + EntriesRest(qs, 0, f, fmt, depth)
      {
        ghost var before := out;
        ghost var k := KeyFound(table, f, i);
        var key := keys[i].key;
        var value;
        if f.sortKeys || f.preserveOrder {
          var found := T.Get(table, key);
          assert found.Some?;
          value := found.value;
        } else {
          value := table.pairs[i].value;
        }
        assert value == held[k];
        DumpKey(key);
        ok := DoDump(value, depth + 1, heap, open);
        if !ok {
          OneFailed(held, k, open, heap);
          return false;
        }
        DumpNext(i == |keys| - 1, depth);
        if all.Some? {
          UnfoldEach(held, open, heap);
          EntryAt(table, all.value, f, i, k);
          EntryStep(qs, i, before, out, f, fmt, depth);
        }
        i := i + 1;
      }
      AllDumped(node, table, serial, f, open, heap);
      ok := true;
    }
  }

  /**
   * json_dumps. On any graph, shared or cyclic, it returns, with every mark clear again; a container is
   * printed exactly when no cycle can be reached from it, and then as the tree it stands for.
   */
  method JsonDumps(node: Node, f: D.DumpFlags, fmt: D.Dtostr, ghost heap: Memory) returns (r: Option<bytes>)
    requires Closed(heap) && Stored(heap) && node in heap && Marked(heap, {})
    modifies heap.Keys`visited
    ensures Marked(heap, {})
    ensures r == match Unfold(node, {}, heap) case None => None case Some(j) => D.Dumps(j, f, fmt)
    ensures !node.content.Leaf? ==> (r == None <==> Cyclic(node, heap))
    ensures node.content.Leaf? ==> (r == None <==> !f.encodeAny)
  {
    hide Closed, Unfold, Cyclic, D.Text;
    NoTreeIffCycle(node, heap);
    UnfoldKind(node, heap);
    if !f.encodeAny {
      if node.content.Leaf? {
        return None;
      }
    }
    var dumper := new Dumper(f, fmt);
    var ok := dumper.DoDump(node, 0, heap, {});
    assert ok ==> dumper.out == D.Text(Unfold(node, {}, heap).value, f, fmt, 0);
    r := if ok then Some(dumper.out) else None;
  }

  lemma UnfoldKind(node: Node, heap: Memory)
    requires Closed(heap) && Stored(heap) && node in heap
    ensures node.content == heap[node]
    ensures node.content.Leaf? ==> Unfold(node, {}, heap).Some?
    ensures Unfold(node, {}, heap).Some? ==> D.IsContainer(Unfold(node, {}, heap).value) == !node.content.Leaf?
  {
    AtNode(node, heap);
  }

  /** Exactly the nodes in open are marked. */
  ghost predicate Marked(heap: Memory, open: set<Node>)
    reads heap.Keys`visited
  {
    open <= heap.Keys && forall m :: m in heap ==> (m.visited <==> m in open)
  }

  /** No node outside open is marked: what is left after a failure. */
  ghost predicate MarkedWithin(heap: Memory, open: set<Node>)
    reads heap.Keys`visited
  {
    forall m :: m in heap && m.visited ==> m in open
  }

  lemma UnfoldNode(node: Node, open: set<Node>, heap: Memory)
    requires Closed(heap) && node in heap && !heap[node].Leaf?
    ensures forall c :: c in Held(heap[node]) ==> c in heap
    ensures node in open ==> Unfold(node, open, heap) == None
    ensures node !in open ==>
      Unfold(node, open, heap) ==
      match UnfoldAll(Held(heap[node]), open + {node}, heap)
      case None => None
      case Some(values) => Some(Rebuild(heap[node], values))
    ensures node !in open && Held(heap[node]) == [] ==> UnfoldAll(Held(heap[node]), open + {node}, heap) == Some([])
  {
  }

  lemma NodeStored(node: Node, heap: Memory)
    requires Stored(heap) && node in heap
    ensures node.content == heap[node]
  {
  }

  lemma AtNode(node: Node, heap: Memory)
    requires Closed(heap) && node in heap
    ensures WfContent(heap[node]) && forall c :: c in Held(heap[node]) ==> c in heap
  {
  }

  lemma OpenFewer(node: Node, heap: Memory, open: set<Node>)
    requires node in heap && node !in open
    ensures |heap.Keys - (open + {node})| < |heap.Keys - open|
  {
    assert node in heap.Keys - open;
    Smaller(heap.Keys - (open + {node}), heap.Keys - open);
  }

  lemma ArrayDone(before: bytes, values: seq<J.Json>, f: D.DumpFlags, fmt: D.Dtostr, depth: nat)
    ensures values == [] ==> before + [LBRACKET] + [RBRACKET] == before + D.Text(J.Arr(values), f, fmt, depth)
    ensures values != [] ==>
      before + [LBRACKET] + D.Indent(f, depth + 1, false) + D.ElemsText(values, f, fmt, depth)
      == before + D.Text(J.Arr(values), f, fmt, depth)
  {
    hide D.Indent, D.ElemsText;
  }

  /** struct object_key: the keys and serials of an object, without the values. */
  function Keys<V>(ps: seq<T.Pair<V>>): (r: seq<T.Pair<()>>)
    ensures |r| == |ps| && forall i :: 0 <= i < |r| ==> r[i] == T.Pair(ps[i].key, ps[i].serial, ())
  {
    seq(|ps|, i requires 0 <= i < |ps| => T.Pair(ps[i].key, ps[i].serial, ()))
  }

  lemma {:induction false} KeysOfInsert<V>(p: T.Pair<V>, ps: seq<T.Pair<V>>, byKey: bool)
    ensures Keys(D.InsertSorted(p, ps, byKey)) == D.InsertSorted(Keys([p])[0], Keys(ps), byKey)
    decreases |ps|
  {
    if ps != [] && !D.Before(p, ps[0], byKey) {
      KeysOfInsert(p, ps[1..], byKey);
      assert Keys(ps)[1..] == Keys(ps[1..]);
    }
  }

  /** Sorting looks at keys and serials only. */
  lemma {:induction false} KeysOfSort<V>(ps: seq<T.Pair<V>>, byKey: bool)
    ensures Keys(D.Sort(ps, byKey)) == D.Sort(Keys(ps), byKey)
    decreases |ps|
  {
    if ps != [] {
      KeysOfSort(ps[1..], byKey);
      KeysOfInsert(ps[0], D.Sort(ps[1..], byKey), byKey);
      assert Keys(ps)[1..] == Keys(ps[1..]) && Keys(ps)[0] == Keys([ps[0]])[0];
    }
  }

  lemma KeysOfOrder<V>(ps: seq<T.Pair<V>>, f: D.DumpFlags)
    ensures Keys(D.PrintOrder(ps, f)) == D.PrintOrder(Keys(ps), f)
  {
    KeysOfSort(ps, true);
    KeysOfSort(ps, false);
  }

  lemma KeysCount<V>(ps: seq<T.Pair<V>>, f: D.DumpFlags)
    ensures |D.PrintOrder(Keys(ps), f)| == |ps|
  {
    D.PrintOrderMembers(Keys(ps), f);
  }

  lemma EntriesCount(ps: seq<T.Pair<Node>>, values: seq<J.Json>, f: D.DumpFlags)
    requires |values| == |ps|
    ensures |D.PrintOrder(Zip(ps, values), f)| == |ps|
  {
    D.PrintOrderMembers(Zip(ps, values), f);
  }

  /** Looking a key up finds the pair it came from. */
  lemma KeyFound(table: T.Table<Node>, f: D.DumpFlags, i: nat) returns (k: nat)
    requires T.Valid(table) && i < |D.PrintOrder(Keys(table.pairs), f)|
    ensures k < |table.pairs| && table.pairs[k].key == D.PrintOrder(Keys(table.pairs), f)[i].key
    ensures T.Get(table, table.pairs[k].key) == Some(table.pairs[k].value)
    ensures !f.sortKeys && !f.preserveOrder ==> k == i
  {
    var keys := D.PrintOrder(Keys(table.pairs), f);
    if !f.sortKeys && !f.preserveOrder {
      k := i;
    } else {
      D.PrintOrderMembers(Keys(table.pairs), f);
      assert keys[i] in Keys(table.pairs);
      k :| 0 <= k < |table.pairs| && Keys(table.pairs)[k] == keys[i];
    }
    T.KeyOfIndex(table.pairs, k);
  }

  /** Entry i of the unfolded object carries key i, and the value of the pair that key came from. */
  lemma EntryAt(table: T.Table<Node>, values: seq<J.Json>, f: D.DumpFlags, i: nat, k: nat)
    requires T.Valid(table) && |values| == |table.pairs| && k < |table.pairs|
    requires i < |D.PrintOrder(Keys(table.pairs), f)| && table.pairs[k].key == D.PrintOrder(Keys(table.pairs), f)[i].key
    ensures var qs := D.PrintOrder(Zip(table.pairs, values), f);
      i < |qs| && qs[i].key == table.pairs[k].key && qs[i].value == values[k]
  {
    hide D.PrintOrder, T.Grouped;
    var ps := Zip(table.pairs, values);
    var qs := D.PrintOrder(ps, f);
    D.PrintOrderMembers(ps, f);
    KeysOfOrder(ps, f);
    assert Keys(ps) == Keys(table.pairs);
    KeysCount(table.pairs, f);
    assert Keys(qs)[i].key == qs[i].key;
    assert qs[i] in ps;
    var m :| 0 <= m < |ps| && ps[m] == qs[i];
    assert table.pairs[m].key == table.pairs[k].key;
  }

  /** The member with this key was dumped. */
  ghost predicate Dumped(key: bytes, table: T.Table<Node>, open: set<Node>, heap: Memory)
    requires Closed(heap)
  {
    T.Get(table, key).Some? && T.Get(table, key).value in heap && Unfold(T.Get(table, key).value, open, heap).Some?
  }

  lemma OneFailed(held: seq<Node>, k: nat, open: set<Node>, heap: Memory)
    requires Closed(heap) && (forall c :: c in held ==> c in heap) && k < |held| && Unfold(held[k], open, heap) == None
    ensures UnfoldAll(held, open, heap) == None
  {
    UnfoldEach(held, open, heap);
  }

  /** When every key was dumped, every value was. */
  lemma AllDumped(node: Node, table: T.Table<Node>, serial: nat, f: D.DumpFlags, open: set<Node>, heap: Memory)
    requires Closed(heap) && node in heap && heap[node] == Object(table, serial)
    requires forall c :: c in Held(heap[node]) ==> c in heap
    requires var keys := D.PrintOrder(Keys(table.pairs), f);
      forall m :: 0 <= m < |keys| ==> Dumped(keys[m].key, table, open, heap)
    ensures UnfoldAll(Held(heap[node]), open, heap).Some?
  {
    hide D.PrintOrder, Unfold, UnfoldAll;
    var held, keys := Held(heap[node]), D.PrintOrder(Keys(table.pairs), f);
    D.PrintOrderMembers(Keys(table.pairs), f);
    forall k | 0 <= k < |held| ensures Unfold(held[k], open, heap).Some? {
      assert Keys(table.pairs)[k] in keys;
      var m :| 0 <= m < |keys| && keys[m] == Keys(table.pairs)[k];
      T.KeyOfIndex(table.pairs, k);
      assert Dumped(keys[m].key, table, open, heap);
    }
    UnfoldEach(held, open, heap);
  }

  /** The members from i on, then the closing brace. */
  function EntriesRest(qs: seq<J.Pair>, i: nat, f: D.DumpFlags, fmt: D.Dtostr, depth: nat): bytes
    requires i <= |qs|
  {
    if i == |qs| then [RBRACE] else D.EntriesText(qs[i..], f, fmt, depth)
  }

  lemma EntryStep(qs: seq<J.Pair>, i: nat, before: bytes, after: bytes, f: D.DumpFlags, fmt: D.Dtostr, depth: nat)
    requires i < |qs|
    requires after == before + D.StringText(qs[i].key, f) + D.Separator(f) + D.Text(qs[i].value, f, fmt, depth + 1)
      + if i == |qs| - 1 then D.Indent(f, depth, false) else [COMMA] + D.Indent(f, depth + 1, true)
    ensures after + EntriesRest(qs, i + 1, f, fmt, depth) == before + EntriesRest(qs, i, f, fmt, depth)
  {
    hide D.Text, D.Indent, D.StringText, D.Separator;
    assert qs[i..][1..] == qs[i + 1..];
  }

  lemma ObjectDone(before: bytes, c: Content, values: seq<J.Json>, f: D.DumpFlags, fmt: D.Dtostr, depth: nat)
    requires c.Object? && |values| == |Held(c)|
    ensures values == [] ==> before + [LBRACE] + [RBRACE] == before + D.Text(Rebuild(c, values), f, fmt, depth)
    ensures var qs := D.PrintOrder(Zip(c.table.pairs, values), f);
      values != [] ==>
        && qs != []
        && before + [LBRACE] + D.Indent(f, depth + 1, false) + D.EntriesText(qs, f, fmt, depth)
           == before + D.Text(Rebuild(c, values), f, fmt, depth)
  {
    hide D.Indent, D.EntriesText, D.PrintOrder;
    var ps := Zip(c.table.pairs, values);
    D.PrintOrderMembers(ps, f);
  }

  /** The elements from i on, then the closing bracket. */
  function ElemsRest(js: seq<J.Json>, i: nat, f: D.DumpFlags, fmt: D.Dtostr, depth: nat): bytes
    requires i <= |js|
  {
    if i == |js| then [RBRACKET] else D.ElemsText(js[i..], f, fmt, depth)
  }

  lemma ElemStep(js: seq<J.Json>, i: nat, before: bytes, after: bytes, f: D.DumpFlags, fmt: D.Dtostr, depth: nat)
    requires i < |js|
    requires after == before + D.Text(js[i], f, fmt, depth + 1)
      + if i == |js| - 1 then D.Indent(f, depth, false) else [COMMA] + D.Indent(f, depth + 1, true)
    ensures after + ElemsRest(js, i + 1, f, fmt, depth) == before + ElemsRest(js, i, f, fmt, depth)
  {
    hide D.Text, D.Indent;
    assert js[i..][1..] == js[i + 1..];
  }

  /** A text is valid exactly when its first character and the rest are. */
  lemma FirstDecides(s: bytes)
    requires s != []
    ensures Utf8.FirstChar(s) == None ==> !Utf8.ValidUtf8(s)
    ensures Utf8.FirstChar(s).Some? ==> Utf8.ValidUtf8(s) == Utf8.ValidUtf8(s[Utf8.FirstChar(s).value.0..])
  {
    hide Utf8.FirstChar;
  }

  lemma EmptyIsValid(s: bytes)
    requires s == []
    ensures Utf8.ValidUtf8(s)
  {
  }

  /** Passing over one character that needs no escape. */
  lemma PlainStep(str: bytes, start: nat, pos: nat, f: D.DumpFlags)
    requires start <= pos < |str| && Utf8.ValidUtf8(str[pos..])
    requires Chars(str[start..], f) == str[start..pos] + Chars(str[pos..], f)
    requires Utf8.FirstChar(str[pos..]).Some? && !D.NeedsEscape(Utf8.FirstChar(str[pos..]).value.1, f)
    ensures var end := pos + Utf8.FirstChar(str[pos..]).value.0;
      Chars(str[start..], f) == str[start..end] + Chars(str[end..], f)
  {
    hide Utf8.FirstChar, Utf8.ValidUtf8, Chars, Utf8.Encoding, D.NeedsEscape;
    CharsStep(str[pos..], f);
    var n := Utf8.FirstChar(str[pos..]).value.0;
    assert str[pos..][..n] == str[pos..pos + n] && str[pos..][n..] == str[pos + n..];
    assert str[start..pos + n] == str[start..pos] + str[pos..pos + n];
  }

  lemma LastStep(str: bytes, start: nat, pos: nat, before: bytes, base: bytes, f: D.DumpFlags)
    requires start <= pos == |str|
    requires Utf8.ValidUtf8(str) ==> before + Chars(str[start..], f) == base + Chars(str, f)
    requires Utf8.ValidUtf8(str) ==> Chars(str[start..], f) == str[start..pos] + Chars(str[pos..], f)
    ensures Utf8.ValidUtf8(str) ==> before + str[start..pos] == base + Chars(str, f)
  {
    assert Chars(str[pos..], f) == [];
  }

  lemma WholeString(before: bytes, str: bytes, f: D.DumpFlags)
    ensures before + [QUOTE] + Chars(str, f) + [QUOTE] == before + D.StringText(str, f)
  {
    Regroup(before, [QUOTE], Chars(str, f), [QUOTE]);
  }

  /** Printing one character that needs an escape. */
  lemma EscapeStep(str: bytes, start: nat, pos: nat, before: bytes, out: bytes, base: bytes, f: D.DumpFlags)
    requires start <= pos < |str| && out == before + str[start..pos]
    requires Utf8.FirstChar(str[pos..]).Some? && D.NeedsEscape(Utf8.FirstChar(str[pos..]).value.1, f)
    ensures var (n, cp) := Utf8.FirstChar(str[pos..]).value;
      && Utf8.IsScalar(cp)
      && Utf8.ValidUtf8(str[pos..]) == Utf8.ValidUtf8(str[pos + n..])
      && (Utf8.ValidUtf8(str[pos..])
          && before + Chars(str[start..], f) == base + Chars(str, f)
          && Chars(str[start..], f) == str[start..pos] + Chars(str[pos..], f)
          ==> out + D.EscapeText(cp) + Chars(str[pos + n..], f) == base + Chars(str, f))
  {
    Utf8.EncodeInvertsCheck(str[pos..]);
    hide Utf8.FirstChar, Utf8.ValidUtf8, Chars, Utf8.Encoding, D.NeedsEscape, D.EscapeText;
    FirstDecides(str[pos..]);
    var (n, cp) := Utf8.FirstChar(str[pos..]).value;
    assert str[pos..][n..] == str[pos + n..];
    if Utf8.ValidUtf8(str[pos..]) {
      CharsStep(str[pos..], f);
      Regroup(before, str[start..pos], D.EscapeText(cp), Chars(str[pos + n..], f));
    }
  }

  lemma Regroup(a: bytes, b: bytes, c: bytes, d: bytes)
    ensures a + b + c + d == a + (b + (c + d))
  {
  }
}
