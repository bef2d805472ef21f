/**
 * The lifetime of file control blocks and context control blocks (dokanlib/sys/create.c). Each method is
 * one section under the volume's or the file's lock, so what every method keeps holds in every
 * interleaving of opens and closes.
 */
module Fcb {
  import opened Basics

  /** WCHAR */
  type wchar = w: int | 0 <= w < 0x10000

  /** The length in bytes, cast to USHORT. */
  function ShortLength(name: seq<wchar>): nat { 2 * |name| % 0x10000 }

  /** What DokanGetFCB compares: the stored length with the full length, then that many characters. */
  predicate Matches(buffer: seq<wchar>, length: nat, name: seq<wchar>)
    requires length == ShortLength(buffer)
  {
    length == 2 * |name| && buffer[..|name|] == name
  }

  /** The length in bytes fits a USHORT. */
  predicate Short(name: seq<wchar>) { 2 * |name| < 0x10000 }

  /** The name an FCB goes by: as much of the buffer as the stored length covers. */
  function Visible(buffer: seq<wchar>): (name: seq<wchar>)
    ensures Short(buffer) ==> name == buffer
    ensures |name| <= |buffer| && Short(name)
  {
    buffer[..ShortLength(buffer) / 2]
  }

  /** The comparison finds the FCBs that go by the name, and nothing under a name that is too long. */
  lemma MatchesIff(buffer: seq<wchar>, name: seq<wchar>)
    ensures Matches(buffer, ShortLength(buffer), name) <==> Short(name) && Visible(buffer) == name
  {
  }

  // ----- runs of opens and closes -----

  /** A listed FCB: the name it was made for, and its FileCount. */
  datatype Block = Block(name: seq<wchar>, users: nat)

  predicate Finds(b: Block, name: seq<wchar>) { Matches(b.name, ShortLength(b.name), name) }

  /** The first block a search for the name finds, or the length when there is none. */
  function First(s: seq<Block>, name: seq<wchar>): (k: nat)
    ensures k <= |s| && (k < |s| ==> Finds(s[k], name))
    ensures forall i :: 0 <= i < k ==> !Finds(s[i], name)
  {
    if s == [] || Finds(s[0], name) then 0 else 1 + First(s[1..], name)
  }

  /** DokanGetFCB */
  function Open(s: seq<Block>, name: seq<wchar>): seq<Block> {
    var k := First(s, name);
    if k < |s| then s[k := s[k].(users := s[k].users + 1)] else s + [Block(name, 1)]
  }

  /** DokanFreeFCB */
  function Close(s: seq<Block>, k: nat): seq<Block>
    requires k < |s|
  {
    if s[k].users <= 1 then s[..k] + s[k + 1..] else s[k := s[k].(users := s[k].users - 1)]
  }

  datatype Op = OpenOp(name: seq<wchar>) | CloseOp(at: nat)

  /** The list after a run; None when it closes an FCB that is not there. */
  function Run(ops: seq<Op>): Option<seq<Block>> {
    if ops == [] then Some([])
    else
      match Run(ops[..|ops| - 1])
      case None => None
      case Some(s) =>
        match ops[|ops| - 1]
        case OpenOp(name) => Some(Open(s, name))
        case CloseOp(at) => if at < |s| then Some(Close(s, at)) else None
  }

  /** The names the listed FCBs go by are all different. */
  ghost predicate StoredApart(s: seq<Block>) {
    forall i, j :: 0 <= i < j < |s| ==> Visible(s[i].name) != Visible(s[j].name)
  }

  /** A second open finds the FCB that the first one got exactly when the name is short. */
  lemma FoundAgain(s: seq<Block>, name: seq<wchar>)
    ensures First(Open(s, name), name) == First(s, name) <==> Short(name)
  {
    var k, t := First(s, name), Open(s, name);
    MatchesIff(name, name);
    FirstIs(t, name, if k == |s| && !Short(name) then k + 1 else k);
  }

  lemma FirstIs(s: seq<Block>, name: seq<wchar>, k: nat)
    requires k <= |s| && (k < |s| ==> Finds(s[k], name)) && forall i :: 0 <= i < k ==> !Finds(s[i], name)
    ensures First(s, name) == k
  {
    var f := First(s, name);
    assert k < |s| ==> Finds(s[k], name);
    assert f < |s| ==> Finds(s[f], name);
  }

  /** The FCB an open gets was made for that very name exactly when none was found, or a short one. */
  lemma MadeForIt(s: seq<Block>, name: seq<wchar>)
    ensures var k := First(s, name);
      Open(s, name)[k].name == name <==> k == |s| || Short(s[k].name)
  {
    var k := First(s, name);
    if k < |s| {
      MatchesIff(s[k].name, name);
    }
  }

  /** A name too long is never found: opened twice, it is listed twice. */
  lemma LongNameIsListedTwice(name: seq<wchar>)
    requires !Short(name)
    ensures Run([OpenOp(name), OpenOp(name)]) == Some([Block(name, 1), Block(name, 1)])
  {
    MatchesIff(name, name);
    RunTwo(name, name);
    assert !Finds(Block(name, 1), name);
    FirstIs([Block(name, 1)], name, 1);
    assert [Block(name, 1)] + [Block(name, 1)] == [Block(name, 1), Block(name, 1)];
  }

  lemma RunTwo(a: seq<wchar>, b: seq<wchar>)
    ensures Run([OpenOp(a), OpenOp(b)]) == Some(Open([Block(a, 1)], b))
  {
    var ops := [OpenOp(a), OpenOp(b)];
    assert ops[..1] == [OpenOp(a)] && [OpenOp(a)][..0] == [];
    assert Run([]) == Some([]) && Open([], a) == [Block(a, 1)];
    assert Run([OpenOp(a)]) == Some([Block(a, 1)]);
  }

  /** 0x8001 times the letter a, and the letter once: the second open gets the FCB of the other file. */
  lemma OtherFileIsFound()
    ensures var long, a := seq(0x8001, _ => 0x61 as wchar), [0x61 as wchar];
      Run([OpenOp(long), OpenOp(a)]) == Some([Block(long, 2)])
  {
    var long, a := seq(0x8001, _ => 0x61 as wchar), [0x61 as wchar];
    RunTwo(long, a);
    assert ShortLength(long) == 2 && long[..1] == a;
    assert Finds(Block(long, 1), a);
    FirstIs([Block(long, 1)], a, 0);
    assert [Block(long, 1)][0 := Block(long, 2)] == [Block(long, 2)];
  }

  ghost predicate Opens(ops: seq<Op>, names: iset<seq<wchar>>) {
    forall k :: 0 <= k < |ops| && ops[k].OpenOp? ==> ops[k].name in names
  }

  ghost predicate AllShort(s: seq<Block>) { forall i :: 0 <= i < |s| ==> Short(s[i].name) }

  lemma OpenStaysApart(s: seq<Block>, name: seq<wchar>)
    requires StoredApart(s) && AllShort(s) && Short(name)
    ensures StoredApart(Open(s, name)) && AllShort(Open(s, name))
  {
    hide Visible, Matches;
    forall i | 0 <= i < |s| ensures Finds(s[i], name) <==> Visible(s[i].name) == name { MatchesIff(s[i].name, name); }
    assert Visible(name) == name;
  }

  lemma CloseStaysApart(s: seq<Block>, k: nat)
    requires StoredApart(s) && AllShort(s) && k < |s|
    ensures StoredApart(Close(s, k)) && AllShort(Close(s, k))
  {
    hide Visible;
  }

  /** Short names stay apart over any run. */
  lemma {:induction false} ShortNamesStayApart(ops: seq<Op>, names: iset<seq<wchar>>)
    requires Opens(ops, names) && Run(ops).Some? && forall name :: name in names ==> Short(name)
    ensures StoredApart(Run(ops).value) && AllShort(Run(ops).value)
    decreases |ops|
  {
    if ops != [] {
      var init, last := ops[..|ops| - 1], ops[|ops| - 1];
      RunStep(ops);
      ShortNamesStayApart(init, names);
      hide Run, StoredApart, AllShort, Open, Close;
      match last {
        case OpenOp(name) => OpenStaysApart(Run(init).value, name);
        case CloseOp(at) => CloseStaysApart(Run(init).value, at);
      }
    }
  }

  lemma RunStep(ops: seq<Op>)
    requires ops != [] && Run(ops).Some?
    ensures var init, last := ops[..|ops| - 1], ops[|ops| - 1];
      && Run(init).Some?
      && (last.OpenOp? ==> Run(ops).value == Open(Run(init).value, last.name))
      && (last.CloseOp? ==> last.at < |Run(init).value| && Run(ops).value == Close(Run(init).value, last.at))
  {
  }

  /**
   * In every run the names the listed FCBs go by stay different, exactly when no name that may be opened is too
   * long.
   */
  lemma {:induction false} StoredNamesApartIff(names: iset<seq<wchar>>)
    ensures (forall ops :: Opens(ops, names) && Run(ops).Some? ==> StoredApart(Run(ops).value))
      <==> forall name :: name in names ==> Short(name)
  {
    if name :| name in names && !Short(name) {
      var ops := [OpenOp(name), OpenOp(name)];
      LongNameIsListedTwice(name);
      var s := Run(ops).value;
      assert Visible(s[0].name) == Visible(s[1].name);
      assert Opens(ops, names) && !StoredApart(s);
    } else {
      forall ops | Opens(ops, names) && Run(ops).Some? ensures StoredApart(Run(ops).value) {
        ShortNamesStayApart(ops, names);
      }
    }
  }

  // ----- the control blocks -----

  class Ccb {
    const fcb: Fcb

    constructor (fcb: Fcb)
      ensures this.fcb == fcb
    {
      this.fcb := fcb;
    }
  }

  class Fcb {
    const name: seq<wchar>
    const length: nat
    var fileCount: nat
    var ccbs: seq<Ccb>

    constructor (name: seq<wchar>)
      ensures this.name == name && length == ShortLength(name) && fileCount == 0 && ccbs == []
    {
      this.name := name;
      length := ShortLength(name);
      fileCount := 0;
      ccbs := [];
    }
  }

  ghost predicate NoRepeats<T>(s: seq<T>) {
    forall i, j :: 0 <= i < j < |s| ==> s[i] != s[j]
  }

  lemma RemovedKeeps<T>(s: seq<T>, k: nat)
    requires NoRepeats(s) && k < |s|
    ensures var r := s[..k] + s[k + 1..]; NoRepeats(r) && forall x :: x in r <==> x in s && x != s[k]
  {
    var r := s[..k] + s[k + 1..];
    forall x | x in s && x != s[k] ensures x in r {
      var i :| 0 <= i < |s| && s[i] == x;
      assert r[if i < k then i else i - 1] == x;
    }
  }

  /** No FCB stands behind another one that a search for its name would find. */
  ghost predicate NamesApart(fcbs: seq<Fcb>) {
    forall i, j :: 0 <= i < j < |fcbs| ==> !Matches(fcbs[i].name, ShortLength(fcbs[i].name), fcbs[j].name)
  }

  ghost function BlocksOf(fcbs: seq<Fcb>): (s: seq<Block>)
    reads (set f | f in fcbs)`fileCount
    ensures |s| == |fcbs| && forall i :: 0 <= i < |s| ==> s[i] == Block(fcbs[i].name, fcbs[i].fileCount)
  {
    if fcbs == [] then [] else [Block(fcbs[0].name, fcbs[0].fileCount)] + BlocksOf(fcbs[1..])
  }

  /** DokanVCB: the list of FCBs, and the opens and closes between two of their sections. */
  class Vcb {
    var fcbs: seq<Fcb>
    /** An open that has its FCB but no CCB yet, or a close that has freed its CCB, once each. */
    ghost var inFlight: multiset<Fcb>

    constructor ()
      ensures Valid() && fcbs == [] && inFlight == multiset{}
    {
      fcbs := [];
      inFlight := multiset{};
    }

    /** The count of an FCB is exact, and its CCBs refer back to it. */
    ghost predicate Counted(f: Fcb)
      reads `inFlight, f
    {
      && f.length == ShortLength(f.name)
      && f.fileCount == |f.ccbs| + inFlight[f] && f.fileCount > 0
      && NoRepeats(f.ccbs) && forall c :: c in f.ccbs ==> c.fcb == f
    }

    ghost predicate Valid()
      reads this, fcbs
    {
      && NoRepeats(fcbs) && NamesApart(fcbs)
      && (forall f :: f in fcbs ==> Counted(f))
      && (forall f :: f in inFlight ==> f in fcbs)
    }

    /** The list, as the runs above have it. */
    ghost function Blocks(): (s: seq<Block>)
      reads `fcbs, (set f | f in fcbs)`fileCount
      ensures |s| == |fcbs| && forall i :: 0 <= i < |s| ==> s[i] == Block(fcbs[i].name, fcbs[i].fileCount)
    {
      BlocksOf(fcbs)
    }

    /** The CCBs that are linked: none of them refers to an FCB that is gone. */
    ghost function Ccbs(): (s: set<Ccb>)
      reads this, fcbs
    {
      set f, c | f in fcbs && c in f.ccbs :: c
    }

    lemma CcbsReferToListed(c: Ccb)
      requires Valid() && c in Ccbs()
      ensures c.fcb in fcbs && c in c.fcb.ccbs && c.fcb.fileCount > 0
    {
      var f :| f in fcbs && c in f.ccbs;
      assert Counted(f);
    }

    /** The search loop of DokanGetFCB. */
    method Find(name: seq<wchar>) returns (k: nat)
      requires Valid()
      ensures k <= |fcbs| && (k < |fcbs| ==> Matches(fcbs[k].name, ShortLength(fcbs[k].name), name))
      ensures forall i :: 0 <= i < k ==> !Matches(fcbs[i].name, ShortLength(fcbs[i].name), name)
    {
      k := 0;
      while k < |fcbs|
        invariant k <= |fcbs|
        invariant forall i :: 0 <= i < k ==> !Matches(fcbs[i].name, ShortLength(fcbs[i].name), name)
      {
        var fcb := fcbs[k];
        assert Counted(fcb);
        if fcb.length == 2 * |name| {
          var pos := 0;
          while pos < |name|
            invariant pos <= |name| && fcb.name[..pos] == name[..pos]
          {
            if fcb.name[pos] != name[pos] {
              break;
            }
            pos := pos + 1;
          }
          if pos == |name| {
            return;
          }
        }
        k := k + 1;
      }
    }

    /**
     * DokanGetFCB: the first FCB that goes by the name, or a new one at the end, with one more open in
     * flight. An FCB is reused exactly when the name is short and some FCB goes by it; the FCB was made for
     * the name exactly when none was reused or its own name is short.
     */
    method GetFcb(name: seq<wchar>) returns (fcb: Fcb)
      requires Valid()
      modifies this, fcbs
      ensures Valid() && inFlight == old(inFlight) + multiset{fcb} && Blocks() == Open(old(Blocks()), name)
      ensures var k := First(old(Blocks()), name);
        && k < |fcbs| && fcb == fcbs[k]
        && fcbs == (if k < |old(fcbs)| then old(fcbs) else old(fcbs) + [fcb])
        && (fcb.name == name <==> k == |old(fcbs)| || Short(fcb.name))
      ensures fcb in old(fcbs) <==> Short(name) && exists f :: f in old(fcbs) && Visible(f.name) == name
      ensures fcb in old(fcbs) || (fresh(fcb) && fcb.name == name)
      ensures fcb.ccbs == (if fcb in old(fcbs) then old(fcb.ccbs) else [])
      ensures forall f :: f in old(fcbs) ==> f.ccbs == old(f.ccbs)
    {
      hide BlocksOf, NoRepeats, NamesApart, Visible, Matches;
      ghost var s := Blocks();
      var k := Find(name);
      FirstIs(s, name, k);
      MadeForIt(s, name);
      ReusedIff(name, k);
      if k < |fcbs| {
        fcb := fcbs[k];
        Reopen(fcb, k);
      } else {
        fcb := AddFcb(name);
      }
    }

    lemma ReusedIff(name: seq<wchar>, k: nat)
      requires k <= |fcbs| && (k < |fcbs| ==> Matches(fcbs[k].name, ShortLength(fcbs[k].name), name))
      requires forall i :: 0 <= i < k ==> !Matches(fcbs[i].name, ShortLength(fcbs[i].name), name)
      ensures k < |fcbs| <==> Short(name) && exists f :: f in fcbs && Visible(f.name) == name
    {
      if k < |fcbs| {
        MatchesIff(fcbs[k].name, name);
        assert fcbs[k] in fcbs;
      }
      forall f | f in fcbs && k == |fcbs| ensures !(Short(name) && Visible(f.name) == name) {
        var i :| 0 <= i < |fcbs| && fcbs[i] == f;
        MatchesIff(f.name, name);
      }
    }

    method Reopen(fcb: Fcb, ghost k: nat)
      requires Valid() && k < |fcbs| && fcbs[k] == fcb
      modifies `inFlight, fcb`fileCount
      ensures Valid() && inFlight == old(inFlight) + multiset{fcb}
      ensures Blocks() == old(Blocks())[k := Block(fcb.name, old(fcb.fileCount) + 1)]
    {
      hide NamesApart, BlocksOf;
      assert Counted(fcb);
      fcb.fileCount := fcb.fileCount + 1;
      inFlight := inFlight + multiset{fcb};
      forall f | f in fcbs ensures Counted(f) {
        assert old(Counted(f));
      }
    }

    /** DokanAllocateFCB, and the first open. */
    method AddFcb(name: seq<wchar>) returns (fcb: Fcb)
      requires Valid() && forall i :: 0 <= i < |fcbs| ==> !Matches(fcbs[i].name, ShortLength(fcbs[i].name), name)
      modifies `fcbs, `inFlight
      ensures Valid() && fresh(fcb) && fcb.name == name && fcb.ccbs == []
      ensures fcbs == old(fcbs) + [fcb] && inFlight == old(inFlight) + multiset{fcb}
      ensures Blocks() == old(Blocks()) + [Block(name, 1)]
    {
      hide NoRepeats, NamesApart, BlocksOf, Matches;
      fcb := new Fcb(name);
      Enlist(fcb);
    }

    method Enlist(fcb: Fcb)
      requires Valid() && fcb !in fcbs && fcb.fileCount == 0 && fcb.ccbs == [] && fcb.length == ShortLength(fcb.name)
      requires forall i :: 0 <= i < |fcbs| ==> !Matches(fcbs[i].name, ShortLength(fcbs[i].name), fcb.name)
      modifies `fcbs, `inFlight, fcb`fileCount
      ensures Valid() && fcbs == old(fcbs) + [fcb] && inFlight == old(inFlight) + multiset{fcb}
      ensures Blocks() == old(Blocks()) + [Block(fcb.name, 1)]
    {
      hide NoRepeats, NamesApart, BlocksOf, Matches;
      Unlisted(fcb);
      fcbs := fcbs + [fcb];
      fcb.fileCount := fcb.fileCount + 1;
      inFlight := inFlight + multiset{fcb};
      forall f | f in fcbs ensures Counted(f) {
        assert f != fcb ==> old(Counted(f));
      }
    }

    lemma Unlisted(fcb: Fcb)
      requires Valid() && fcb !in fcbs
      requires forall i :: 0 <= i < |fcbs| ==> !Matches(fcbs[i].name, ShortLength(fcbs[i].name), fcb.name)
      ensures NoRepeats(fcbs + [fcb]) && NamesApart(fcbs + [fcb]) && inFlight[fcb] == 0 && NoRepeats<Ccb>([])
    {
    }

    /** Whether the list lost one user of fcb since it was s. */
    ghost predicate LostUser(fcb: Fcb, was: seq<Fcb>, s: seq<Block>)
      reads `fcbs, (set f | f in fcbs)`fileCount
      requires |s| == |was|
    {
      exists k :: 0 <= k < |was| && was[k] == fcb && Blocks() == Close(s, k)
    }

    /** DokanFreeFCB: the last one to go takes the FCB off the list, and nothing refers to it then. */
    method FreeFcb(fcb: Fcb) returns (freed: bool)
      requires Valid() && fcb in inFlight
      modifies this, fcb`fileCount
      ensures Valid() && inFlight == old(inFlight) - multiset{fcb}
      ensures freed <==> old(fcb.fileCount) == 1
      ensures freed ==> fcb !in fcbs && fcb.ccbs == [] && fcb !in inFlight
      ensures forall f :: f in fcbs <==> f in old(fcbs) && !(freed && f == fcb)
      ensures LostUser(fcb, old(fcbs), old(Blocks()))
    {
      hide NoRepeats, NamesApart, BlocksOf, Close;
      ghost var was, s := fcbs, Blocks();
      ghost var k := PositionIs(fcb);
      LoseUser(fcb);
      freed := fcb.fileCount == 0;
      if freed {
        Unlink(fcb, k);
      }
      BlocksClosed(was, s, k, freed);
    }

    /** FileCount goes down: after the last user, no CCB is left and nothing is in flight. */
    method LoseUser(fcb: Fcb)
      requires Valid() && fcb in inFlight
      modifies `inFlight, fcb`fileCount
      ensures inFlight == old(inFlight) - multiset{fcb} && fcb.fileCount == old(fcb.fileCount) - 1
      ensures forall f :: f in fcbs && (f == fcb ==> fcb.fileCount > 0) ==> Counted(f)
      ensures fcb.fileCount == 0 ==> fcb.ccbs == [] && fcb !in inFlight
    {
      hide NoRepeats, NamesApart;
      assert Counted(fcb);
      fcb.fileCount := fcb.fileCount - 1;
      inFlight := inFlight - multiset{fcb};
      forall f | f in fcbs && (f == fcb ==> fcb.fileCount > 0) ensures Counted(f) {
        assert old(Counted(f));
      }
    }

    lemma BlocksClosed(was: seq<Fcb>, s: seq<Block>, k: nat, freed: bool)
      requires k < |was| && |s| == |was|
      requires freed <==> s[k].users <= 1
      requires fcbs == if freed then was[..k] + was[k + 1..] else was
      requires forall i :: 0 <= i < |s| ==> s[i].name == was[i].name
      requires forall i :: 0 <= i < |s| && i != k ==> s[i].users == was[i].fileCount
      requires !freed ==> was[k].fileCount == s[k].users - 1
      ensures Blocks() == Close(s, k)
    {
      hide BlocksOf;
      var r := Blocks();
      if freed {
        assert r == s[..k] + s[k + 1..];
      } else {
        assert r == s[k := s[k].(users := s[k].users - 1)];
      }
    }

    lemma PositionIs(fcb: Fcb) returns (k: nat)
      requires NoRepeats(fcbs) && fcb in fcbs
      ensures k < |fcbs| && fcbs[k] == fcb && forall i :: 0 <= i < |fcbs| && i != k ==> fcbs[i] != fcb
    {
      k :| 0 <= k < |fcbs| && fcbs[k] == fcb;
    }

    /** RemoveEntryList on the FCB. */
    method Unlink(fcb: Fcb, ghost k: nat)
      requires NoRepeats(fcbs) && NamesApart(fcbs) && k < |fcbs| && fcbs[k] == fcb
      modifies `fcbs
      ensures NoRepeats(fcbs) && NamesApart(fcbs) && fcbs == old(fcbs)[..k] + old(fcbs)[k + 1..]
      ensures forall f :: f in fcbs <==> f in old(fcbs) && f != fcb
    {
      RemovedKeeps(fcbs, k);
      var at :| 0 <= at < |fcbs| && fcbs[at] == fcb;
      var r := fcbs[..at] + fcbs[at + 1..];
      assert forall i :: 0 <= i < |r| ==> r[i] == fcbs[if i < at then i else i + 1];
      fcbs := r;
    }

    /** DokanAllocateCCB for an open in flight; when there is no memory, the open gives its FCB back. */
    method AllocateCcb(fcb: Fcb, memory: bool) returns (ccb: Ccb?)
      requires Valid() && fcb in inFlight
      modifies this, fcb
      ensures Valid() && inFlight == old(inFlight) - multiset{fcb} && (ccb != null <==> memory)
      ensures memory ==> fresh(ccb) && ccb.fcb == fcb && fcbs == old(fcbs) && fcb.ccbs == old(fcb.ccbs) + [ccb]
      ensures !memory ==> fcb.ccbs == old(fcb.ccbs) && LostUser(fcb, old(fcbs), old(Blocks()))
      ensures memory ==> Blocks() == old(Blocks())
    {
      if !memory {
        var freed := FreeFcb(fcb);
        return null;
      }
      ccb := Link(fcb);
    }

    /** The part of DokanAllocateCCB under the file's lock. */
    method Link(fcb: Fcb) returns (ccb: Ccb)
      requires Valid() && fcb in inFlight
      modifies `inFlight, fcb`ccbs
      ensures Valid() && inFlight == old(inFlight) - multiset{fcb}
      ensures fresh(ccb) && ccb.fcb == fcb && fcb.ccbs == old(fcb.ccbs) + [ccb]
    {
      hide NamesApart;
      ccb := new Ccb(fcb);
      assert Counted(fcb);
      assert NoRepeats(fcb.ccbs + [ccb]);
      fcb.ccbs := fcb.ccbs + [ccb];
      inFlight := inFlight - multiset{fcb};
      forall f | f in fcbs ensures Counted(f) {
        assert old(Counted(f));
      }
    }

    /** DokanFreeCCB: the close that called it still counts as a user of the FCB. */
    method FreeCcb(ccb: Ccb)
      requires Valid() && ccb in Ccbs()
      modifies `inFlight, ccb.fcb`ccbs
      ensures Valid() && inFlight == old(inFlight) + multiset{ccb.fcb} && ccb !in Ccbs()
      ensures Blocks() == old(Blocks())
      ensures forall c :: c in ccb.fcb.ccbs <==> c in old(ccb.fcb.ccbs) && c != ccb
    {
      hide NoRepeats, NamesApart, BlocksOf;
      CcbsReferToListed(ccb);
      var fcb := ccb.fcb;
      assert Counted(fcb);
      var k :| 0 <= k < |fcb.ccbs| && fcb.ccbs[k] == ccb;
      RemovedKeeps(fcb.ccbs, k);
      fcb.ccbs := fcb.ccbs[..k] + fcb.ccbs[k + 1..];
      inFlight := inFlight + multiset{fcb};
      forall f | f in fcbs ensures Counted(f) {
        assert old(Counted(f));
      }
    }
  }
}
