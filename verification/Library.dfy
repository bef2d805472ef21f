/** json_dumps and json_loads together: what a caller of the library sees. */
module Library {
  import opened Basics
  import opened JsonHeap
  import A = Accepts
  import D = DumpSpec
  import J = Json
  import P = ParseSpec
  import R = RoundTrip
  import Reload
  import Dumper
  import Parser

  /** Printed text is a C string. */
  lemma PrintedIsNulFree(j: J.Json, f: D.DumpFlags, lib: R.Lib)
    requires J.Wf(j) && R.RealsReadBack(j, lib.fmt, lib.conv)
    ensures NulFree(D.Text(j, f, lib.fmt, 0))
  {
    hide D.Text, J.Wf, R.RealsReadBack, R.PrintTree;
    var v := R.PrintTree(j, f, lib, 0);
    R.TreeSpellsText(j, f, lib, 0, []);
    A.SpellIsUtf8(v, []);
    assert D.Text(j, f, lib.fmt, 0) + [] == D.Text(j, f, lib.fmt, 0);
  }

  /**
   * Printing a graph and parsing the text, with the code of both: on an acyclic graph the result is
   * json_equal to the tree the graph stands for, and under sorted or preserved order it prints the same.
   */
  method DumpThenLoad(node: Node, f: D.DumpFlags, flags: P.LoadFlags, lib: R.Lib, ghost heap: Memory)
    returns (text: Option<bytes>, back: Option<J.Json>)
    requires Closed(heap) && Stored(heap) && node in heap && Dumper.Marked(heap, {}) && !node.content.Leaf?
    requires Unfold(node, {}, heap).Some? ==> R.RealsReadBack(Unfold(node, {}, heap).value, lib.fmt, lib.conv)
    modifies heap.Keys`visited
    ensures Dumper.Marked(heap, {})
    ensures Cyclic(node, heap) <==> text == None
    ensures !Cyclic(node, heap) ==>
      && Unfold(node, {}, heap).Some? && back.Some? && J.Equal(Unfold(node, {}, heap).value, back.value)
      && (f.sortKeys || f.preserveOrder ==> D.Dumps(back.value, f, lib.fmt) == text)
  {
    hide Closed, Stored, Unfold, Cyclic, Dumper.Marked, J.Wf, J.Equal, R.RealsReadBack, D.Text, P.Loads, NulFree;
    back := None;
    NoTreeIffCycle(node, heap);
    Dumper.UnfoldKind(node, heap);
    text := Dumper.JsonDumps(node, f, lib.fmt, heap);
    if text.Some? {
      ghost var j := Unfold(node, {}, heap).value;
      UnfoldIsWf(node, {}, heap);
      PrintedIsNulFree(j, f, lib);
      back := Parser.JsonLoads(text.value, flags, lib.conv);
      Reload.RoundTripTheorem(j, f, lib, flags);
      if f.sortKeys || f.preserveOrder {
        Reload.PrintParsePrint(j, f, lib, flags);
      }
    }
  }
}
