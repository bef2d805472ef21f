/**
 * Directory listings in pages (dokanlib/dokan/directory.c): packing variable-length records into a buffer,
 * and serving a list of entries page by page.
 */
module Directory {
  import opened Basics

  /** WIN32_FIND_DATAW: times, sizes and attributes as they are laid out in a record, and the name in UTF-16. */
  datatype Entry = Entry(info: bytes, name: bytes)

  /** A FILE_..._INFORMATION structure: its sizeof, and the offsets of the name's length and of the name. */
  datatype Layout = Layout(size: nat, lengthOffset: nat, nameOffset: nat)

  /** The classes of information a listing may be asked for. */
  datatype InfoClass = DirectoryInfo | FullDirectoryInfo | NamesInfo | BothDirectoryInfo | IdBothDirectoryInfo

  /** What the packing needs to know of a layout. */
  predicate WfLayout(y: Layout) {
    8 <= y.lengthOffset && y.lengthOffset + 4 <= y.nameOffset < y.size <= 0x1000
  }

  function LayoutOf(c: InfoClass): (y: Layout)
    ensures WfLayout(y)
  {
    match c
    case DirectoryInfo => Layout(72, 60, 64)
    case FullDirectoryInfo => Layout(72, 60, 68)
    case NamesInfo => Layout(16, 8, 12)
    case BothDirectoryInfo => Layout(96, 60, 94)
    case IdBothDirectoryInfo => Layout(112, 60, 104)
  }

  /** fileinfo.h: the sizes of the field types, ULONG, LARGE_INTEGER, CCHAR and WCHAR. */
  const ULONG := 4
  const LARGE := 8
  const CHAR := 1
  const WIDE := 2

  /** The next multiple of a power of two. */
  function RoundUp(n: nat, align: nat): nat
    requires align > 0
  {
    (n + align - 1) / align * align
  }

  /**
   * Where the name's length and the name stand in each structure: behind the fields in front of them, each at
   * a multiple of its own size. NextEntryOffset and FileIndex come first; all but one go on
   * with four times, two sizes and the attributes. A structure ends at a multiple of its widest field.
   */
  lemma LayoutsAreOfFields()
    ensures var length := 2 * ULONG + 6 * LARGE + ULONG;
      var name := length + ULONG;
      var short := RoundUp(name + ULONG + CHAR, WIDE) + 12 * WIDE;
      var id := RoundUp(short, LARGE) + LARGE;
      && LayoutOf(DirectoryInfo) == Layout(RoundUp(name + WIDE, LARGE), length, name)
      && LayoutOf(FullDirectoryInfo) == Layout(RoundUp(name + ULONG + WIDE, LARGE), length, name + ULONG)
      && LayoutOf(NamesInfo) == Layout(RoundUp(3 * ULONG + WIDE, ULONG), 2 * ULONG, 3 * ULONG)
      && LayoutOf(BothDirectoryInfo) == Layout(RoundUp(short + WIDE, LARGE), length, short)
      && LayoutOf(IdBothDirectoryInfo) == Layout(RoundUp(id + WIDE, LARGE), length, id)
  {
  }

  /** The find data holds at least what the layout shows of it, and cFileName is shorter than MAX_PATH. */
  predicate WfEntry(e: Entry, y: Layout) {
    y.lengthOffset - 8 <= |e.info| && |e.name| < 520
  }

  // ----- one record -----

  function LongAlign(n: nat): (r: nat)
    ensures n <= r < n + 4 && r % 4 == 0
  {
    (n + 3) / 4 * 4
  }

  /** The size of an entry's record when it starts at the given address. */
  function EntrySize(e: Entry, y: Layout, address: nat): (n: nat)
    ensures n >= |e.name| + y.size && n < |e.name| + y.size + 8
  {
    var size := LongAlign(|e.name| + y.size);
    if (address + size) % 8 == 0 then size else size + 4
  }

  lemma EightsAreFours(address: nat, end: nat)
    requires address % 4 == 0
    ensures end % 8 == 0 || end == address ==> end % 4 == 0
  {
    if end % 8 == 0 {
      assert end == 4 * (2 * (end / 8));
    }
  }

  /** Of two multiples of 4 in a row one is an 8-byte boundary. */
  lemma FoursApart(a: nat, b: nat)
    requires a % 4 == 0
    ensures a % 8 == 0 || (a + 4) % 8 == 0
    ensures a % 8 != 0 && b % 8 == 0 && b >= a ==> b >= a + 4
  {
    var j, k := a / 8, b / 8;
    assert a == 8 * j + a % 8 && b == 8 * k + b % 8;
    Eighths(j, a % 8);
    if a % 8 != 0 {
      Eighths(j + 1, 0);
      assert a + 4 == 8 * (j + 1);
    }
  }

  lemma Eighths(j: nat, r: nat)
    requires r < 8
    ensures (8 * j + r) % 8 == r && (8 * j + r) % 4 == r % 4
  {
    assert 8 * j + r == 4 * (2 * j) + r;
  }

  /** A record ends on an 8-byte boundary, and no smaller one that does has room for the structure and the name. */
  lemma EntrySizeIsLeast(e: Entry, y: Layout, address: nat, m: nat)
    requires address % 4 == 0
    ensures var n := EntrySize(e, y, address);
      && (address + n) % 8 == 0 && n >= y.size + |e.name|
      && (m >= y.size + |e.name| && (address + m) % 8 == 0 ==> n <= m)
  {
    var size := LongAlign(|e.name| + y.size);
    EightsAreFours(address, address + m);
    FoursApart(address + size, address + m);
  }

  /** A ULONG, little end first. */
  function Ulong(s: bytes, at: nat): (v: nat)
    requires at + 4 <= |s|
  {
    s[at] as int + s[at + 1] as int * 0x100 + s[at + 2] as int * 0x10000 + s[at + 3] as int * 0x1000000
  }

  lemma LittleEndFirst()
    ensures Ulong([0x78, 0x56, 0x34, 0x12], 0) == 0x12345678
  {
  }

  datatype Record = Record(index: nat, info: bytes, name: bytes)

  /** The record that can be read at the start of s, None when s is too short for it. */
  function ReadRecord(s: bytes, y: Layout): Option<Record>
    requires WfLayout(y)
  {
    if |s| < y.nameOffset || |s| < y.nameOffset + Ulong(s, y.lengthOffset) then None
    else Some(Record(Ulong(s, 4), s[8..y.lengthOffset], s[y.nameOffset..y.nameOffset + Ulong(s, y.lengthOffset)]))
  }

  function RecordOf(e: Entry, y: Layout, index: nat): Record
    requires WfLayout(y) && WfEntry(e, y)
  {
    Record(index, e.info[..y.lengthOffset - 8], e.name)
  }

  /** Stores a ULONG. */
  method PutUlong(a: array<byte>, at: nat, v: nat)
    requires at + 4 <= a.Length && v < 0x1_0000_0000
    modifies a
    ensures Ulong(a[..], at) == v
    ensures forall i :: 0 <= i < a.Length && !(at <= i < at + 4) ==> a[i] == old(a[i])
  {
    a[at] := v % 0x100;
    a[at + 1] := v / 0x100 % 0x100;
    a[at + 2] := v / 0x10000 % 0x100;
    a[at + 3] := v / 0x1000000;
    Digits(v);
  }

  lemma Digits(v: nat)
    requires v < 0x1_0000_0000
    ensures v == v % 0x100 + v / 0x100 % 0x100 * 0x100 + v / 0x10000 % 0x100 * 0x10000 + v / 0x1000000 * 0x1000000
    ensures v / 0x1000000 < 0x100
  {
    assert v == v / 0x100 * 0x100 + v % 0x100;
    assert v / 0x100 == v / 0x10000 * 0x100 + v / 0x100 % 0x100;
    assert v / 0x10000 == v / 0x1000000 * 0x100 + v / 0x10000 % 0x100;
  }

  /** DokanFillDirectoryInformation: the size of the record it packed at pos, or 0 when there is no room. */
  method Fill(buffer: array<byte>, pos: nat, address: nat, remaining: nat, y: Layout, e: Entry, index: nat)
    returns (size: nat)
    requires pos + remaining <= buffer.Length && WfLayout(y) && WfEntry(e, y) && index < 0x1_0000_0000
    modifies buffer
    ensures size == if remaining < EntrySize(e, y, address + pos) then 0 else EntrySize(e, y, address + pos)
    ensures size == 0 ==> buffer[..] == old(buffer[..])
    ensures size > 0 ==>
      && ReadRecord(buffer[pos..pos + size], y) == Some(RecordOf(e, y, index))
      && Ulong(buffer[..], pos) == 0
    ensures forall i :: 0 <= i < buffer.Length && !(pos <= i < pos + size) ==> buffer[i] == old(buffer[i])
  {
    size := LongAlign(|e.name| + y.size);
    if (address + pos + size) % 8 != 0 {
      size := size + 4;
    }
    if remaining < size {
      return 0;
    }
    Zero(buffer, pos, size);
    FillInfo(buffer, pos, y, e, index);
    RecordReads(buffer[pos..pos + size], y, e, index);
  }

  /** RtlZeroMemory */
  method Zero(buffer: array<byte>, pos: nat, size: nat)
    requires pos + size <= buffer.Length
    modifies buffer
    ensures forall i :: 0 <= i < buffer.Length ==> buffer[i] == if pos <= i < pos + size then 0 else old(buffer[i])
  {
    forall i | pos <= i < pos + size {
      buffer[i] := 0;
    }
  }

  /** DokanFillDirInfo and its four variants: index, times and sizes, name and its length. */
  method FillInfo(buffer: array<byte>, pos: nat, y: Layout, e: Entry, index: nat)
    requires WfLayout(y) && WfEntry(e, y) && pos + y.nameOffset + |e.name| <= buffer.Length && index < 0x1_0000_0000
    modifies buffer
    ensures Ulong(buffer[..], pos + 4) == index && Ulong(buffer[..], pos + y.lengthOffset) == |e.name|
    ensures forall i :: 0 <= i < y.lengthOffset - 8 ==> buffer[pos + 8 + i] == e.info[i]
    ensures forall i :: 0 <= i < |e.name| ==> buffer[pos + y.nameOffset + i] == e.name[i]
    ensures forall i :: 0 <= i < buffer.Length && !(pos + 4 <= i < pos + y.nameOffset + |e.name|) ==>
      buffer[i] == old(buffer[i])
  {
    forall i | 0 <= i < y.lengthOffset - 8 {
      buffer[pos + 8 + i] := e.info[i];
    }
    forall i | 0 <= i < |e.name| {
      buffer[pos + y.nameOffset + i] := e.name[i];
    }
    PutUlong(buffer, pos + 4, index);
    PutUlong(buffer, pos + y.lengthOffset, |e.name|);
  }

  lemma RecordReads(s: bytes, y: Layout, e: Entry, index: nat)
    requires WfLayout(y) && WfEntry(e, y) && |s| >= y.nameOffset + |e.name|
    requires Ulong(s, 4) == index && Ulong(s, y.lengthOffset) == |e.name|
    requires forall i :: 0 <= i < y.lengthOffset - 8 ==> s[8 + i] == e.info[i]
    requires forall i :: 0 <= i < |e.name| ==> s[y.nameOffset + i] == e.name[i]
    ensures ReadRecord(s, y) == Some(RecordOf(e, y, index))
  {
    assert s[8..y.lengthOffset] == e.info[..y.lengthOffset - 8];
    assert s[y.nameOffset..y.nameOffset + |e.name|] == e.name;
  }

  // ----- chains of records -----

  /** Records one after the other, each one's NextEntryOffset leading to the end of it. */
  ghost predicate Packed(s: bytes, recs: seq<Record>, y: Layout)
    requires WfLayout(y)
    decreases |recs|
  {
    if recs == [] then s == []
    else
      && |s| >= 4 && 0 < Ulong(s, 0) <= |s|
      && ReadRecord(s[..Ulong(s, 0)], y) == Some(recs[0])
      && Packed(s[Ulong(s, 0)..], recs[1..], y)
  }

  /** What a reader finds who follows NextEntryOffset until it is 0. */
  function Walk(s: bytes, y: Layout): seq<Record>
    requires WfLayout(y)
    decreases |s|
  {
    match ReadRecord(s, y)
    case None => []
    case Some(r) =>
      var next := Ulong(s, 0);
      if next == 0 || next > |s| then [r] else [r] + Walk(s[next..], y)
  }

  lemma ReadPrefix(s: bytes, n: nat, y: Layout)
    requires WfLayout(y) && n <= |s| && ReadRecord(s[..n], y).Some?
    ensures ReadRecord(s, y) == ReadRecord(s[..n], y)
  {
    assert s[..n][8..y.lengthOffset] == s[8..y.lengthOffset];
    var end := y.nameOffset + Ulong(s, y.lengthOffset);
    assert s[..n][y.nameOffset..end] == s[y.nameOffset..end];
  }

  lemma UlongPrefix(s: bytes, t: bytes)
    requires |s| >= 4
    ensures Ulong(s + t, 0) == Ulong(s, 0)
  {
  }

  lemma {:induction false} PackMore(s: bytes, recs: seq<Record>, t: bytes, r: Record, y: Layout)
    requires WfLayout(y) && Packed(s, recs, y)
    requires |t| >= 4 && Ulong(t, 0) == |t| && ReadRecord(t, y) == Some(r)
    ensures Packed(s + t, recs + [r], y)
    decreases |recs|
  {
    hide ReadRecord, Ulong;
    if recs == [] {
      assert s + t == t && t[..|t|] == t && t[|t|..] == [];
      assert [r][1..] == [];
    } else {
      var n := Ulong(s, 0);
      UlongPrefix(s, t);
      PackMore(s[n..], recs[1..], t, r, y);
      assert (s + t)[..n] == s[..n] && (s + t)[n..] == s[n..] + t;
      assert (recs + [r])[1..] == recs[1..] + [r];
    }
  }

  /** Following the chain gives back exactly what was packed. */
  lemma {:induction false} WalkReads(s: bytes, recs: seq<Record>, t: bytes, r: Record, y: Layout)
    requires WfLayout(y) && Packed(s, recs, y)
    requires |t| >= 4 && Ulong(t, 0) == 0 && ReadRecord(t, y) == Some(r)
    ensures Walk(s + t, y) == recs + [r]
    decreases |recs|
  {
    hide ReadRecord, Ulong;
    if recs == [] {
      assert s + t == t;
    } else {
      var n := Ulong(s, 0);
      UlongPrefix(s, t);
      WalkReads(s[n..], recs[1..], t, r, y);
      assert (s + t)[..n] == s[..n] && (s + t)[n..] == s[n..] + t;
      ReadPrefix(s + t, n, y);
      assert recs + [r] == [recs[0]] + (recs[1..] + [r]);
    }
  }

  // ----- a page -----

  /** The entries a request asks for. */
  function Selected(list: seq<Entry>, matches: Entry -> bool): (m: seq<Entry>)
    ensures |m| <= |list| && forall e :: e in m ==> e in list
  {
    if list == [] then []
    else
      var e := list[|list| - 1];
      Selected(list[..|list| - 1], matches) + if matches(e) then [e] else []
  }

  /** What is selected: of one entry, it or nothing, and of two lists, what is selected of each. */
  lemma {:induction false} SelectedJoins(a: seq<Entry>, b: seq<Entry>, e: Entry, matches: Entry -> bool)
    ensures Selected([], matches) == []
    ensures Selected([e], matches) == if matches(e) then [e] else []
    ensures Selected(a + b, matches) == Selected(a, matches) + Selected(b, matches)
    decreases |b|
  {
    assert [e][..0] == [];
    if b == [] {
      assert a + b == a;
    } else {
      var c, last := b[..|b| - 1], b[|b| - 1];
      SelectedJoins(a, c, e, matches);
      assert (a + b)[..|a + b| - 1] == a + c && (a + b)[|a + b| - 1] == last;
      var tail := if matches(last) then [last] else [];
      var u, v := Selected(a, matches), Selected(c, matches);
      assert (u + v) + tail == u + (v + tail);
    }
  }

  lemma {:induction false} SelectedPrefix(list: seq<Entry>, matches: Entry -> bool, i: nat)
    requires i <= |list|
    ensures Selected(list[..i], matches) <= Selected(list, matches)
    decreases |list|
  {
    if i < |list| {
      var t := list[..|list| - 1];
      assert t[..i] == list[..i];
      SelectedPrefix(t, matches, i);
    } else {
      assert list[..i] == list;
    }
  }

  /** The bytes the first n records of ms take. */
  function Used(ms: seq<Entry>, n: nat, y: Layout, address: nat): nat
    requires n <= |ms|
  {
    if n == 0 then 0
    else
      var u := Used(ms, n - 1, y, address);
      u + EntrySize(ms[n - 1], y, address + u)
  }

  /** How many records of ms, from the nth on, still fit behind the first n. */
  function Fits(ms: seq<Entry>, n: nat, y: Layout, address: nat, length: nat, single: bool): (c: nat)
    requires n <= |ms|
    ensures n <= c <= |ms|
    decreases |ms| - n
  {
    if n == |ms| || Used(ms, n + 1, y, address) > length then n
    else if single then n + 1
    else Fits(ms, n + 1, y, address, length, single)
  }

  /** The page holds as many records as the buffer has room for, and one at most when only one was asked for. */
  ghost predicate FillsUp(ms: seq<Entry>, c: nat, y: Layout, address: nat, length: nat, single: bool) {
    && c <= |ms| && Used(ms, c, y, address) <= length && (single ==> c <= 1)
    && (c < |ms| ==> (single && c == 1) || Used(ms, c + 1, y, address) > length)
  }

  lemma {:induction false} FitsFillsUp(ms: seq<Entry>, y: Layout, address: nat, length: nat, single: bool)
    ensures FillsUp(ms, Fits(ms, 0, y, address, length, single), y, address, length, single)
  {
    FitsFrom(ms, 0, y, address, length, single);
  }

  lemma {:induction false} FitsFrom(ms: seq<Entry>, n: nat, y: Layout, address: nat, length: nat, single: bool)
    requires n <= |ms| && Used(ms, n, y, address) <= length && (single ==> n == 0)
    ensures FillsUp(ms, Fits(ms, n, y, address, length, single), y, address, length, single)
    decreases |ms| - n
  {
    hide Used;
    if n < |ms| && Used(ms, n + 1, y, address) <= length && !single {
      FitsFrom(ms, n + 1, y, address, length, single);
    }
  }

  lemma UsedNone(ms: seq<Entry>, y: Layout, address: nat)
    ensures Used(ms, 0, y, address) == 0
  {
  }

  /** The records of a page lie one behind the other, and each ends on an 8-byte boundary. */
  lemma {:induction false} RecordsAreAligned(ms: seq<Entry>, n: nat, y: Layout, address: nat)
    requires n <= |ms| && address % 4 == 0 && WfLayout(y)
    ensures n > 0 ==>
      && Used(ms, n, y, address) > Used(ms, n - 1, y, address)
      && (address + Used(ms, n, y, address)) % 8 == 0
  {
    hide Used, EntrySize;
    UsedNone(ms, y, address);
    if n > 0 {
      RecordsAreAligned(ms, n - 1, y, address);
      UsedMore(ms, n - 1, y, address);
      var at := address + Used(ms, n - 1, y, address);
      EightsAreFours(address, at);
      EntrySizeIsLeast(ms[n - 1], y, at, 0);
    }
  }

  predicate AllWf(ms: seq<Entry>, y: Layout) { forall k :: 0 <= k < |ms| ==> WfEntry(ms[k], y) }

  /** The records for the first n of ms, where a page starts at base: each carries the index to go on from. */
  function Records(ms: seq<Entry>, base: nat, n: nat, y: Layout): (rs: seq<Record>)
    requires WfLayout(y) && n <= |ms| && AllWf(ms, y)
    ensures |rs| == n && forall k :: 0 <= k < n ==> rs[k] == RecordOf(ms[k], y, base + k + 1)
  {
    seq(n, k requires 0 <= k < n => RecordOf(ms[k], y, base + k + 1))
  }

  lemma RecordsMore(ms: seq<Entry>, base: nat, n: nat, y: Layout)
    requires WfLayout(y) && AllWf(ms, y) && n < |ms|
    ensures Records(ms, base, n + 1, y) == Records(ms, base, n, y) + [RecordOf(ms[n], y, base + n + 1)]
  {
  }

  /** s holds n records, the last of them from last on. */
  ghost predicate Written(s: bytes, ms: seq<Entry>, base: nat, n: nat, last: nat, y: Layout)
    requires WfLayout(y) && n <= |ms| && AllWf(ms, y)
  {
    if n == 0 then last == 0 && s == []
    else
      && last + 4 <= |s| && Packed(s[..last], Records(ms, base, n - 1, y), y)
      && ReadRecord(s[last..], y) == Some(RecordOf(ms[n - 1], y, base + n))
  }

  lemma UlongAt(s: bytes, k: nat)
    requires k + 4 <= |s|
    ensures Ulong(s[k..], 0) == Ulong(s, k)
  {
  }

  lemma LastIsWf(ms: seq<Entry>, k: nat, y: Layout)
    requires AllWf(ms, y) && k < |ms|
    ensures WfEntry(ms[k], y)
  {
  }

  /** With the last NextEntryOffset 0, a reader finds exactly these records. */
  lemma WrittenReads(s: bytes, ms: seq<Entry>, base: nat, n: nat, last: nat, y: Layout)
    requires WfLayout(y) && n <= |ms| && AllWf(ms, y) && n > 0
    requires Written(s, ms, base, n, last, y) && Ulong(s, last) == 0
    ensures Walk(s, y) == Records(ms, base, n, y)
  {
    hide ReadRecord, Ulong, Packed, Walk, RecordOf, Records, AllWf;
    UlongAt(s, last);
    RecordsMore(ms, base, n - 1, y);
    assert s == s[..last] + s[last..];
    LastIsWf(ms, n - 1, y);
    WalkReads(s[..last], Records(ms, base, n - 1, y), s[last..], RecordOf(ms[n - 1], y, base + n), y);
  }

  /** With its NextEntryOffset set, the last record is packed too. */
  lemma WrittenPacks(s: bytes, ms: seq<Entry>, base: nat, n: nat, last: nat, y: Layout)
    requires WfLayout(y) && n <= |ms| && AllWf(ms, y)
    requires Written(s, ms, base, n, last, y) && (n > 0 ==> Ulong(s, last) == |s| - last)
    ensures Packed(s, Records(ms, base, n, y), y)
  {
    hide ReadRecord, Ulong, RecordOf, Records, AllWf;
    if n > 0 {
      UlongAt(s, last);
      RecordsMore(ms, base, n - 1, y);
      assert s == s[..last] + s[last..];
      LastIsWf(ms, n - 1, y);
      PackMore(s[..last], Records(ms, base, n - 1, y), s[last..], RecordOf(ms[n - 1], y, base + n), y);
    }
  }

  /** A record does not depend on its NextEntryOffset. */
  lemma OffsetIsApart(s: bytes, t: bytes, y: Layout)
    requires WfLayout(y) && |s| == |t| && |s| >= 4 && s[4..] == t[4..]
    ensures ReadRecord(s, y) == ReadRecord(t, y)
  {
    assert forall i :: 4 <= i < |s| ==> s[i] == s[4..][i - 4] == t[4..][i - 4] == t[i];
    if |s| >= y.nameOffset {
      assert Ulong(s, y.lengthOffset) == Ulong(t, y.lengthOffset) && Ulong(s, 4) == Ulong(t, 4);
      var end := y.nameOffset + Ulong(s, y.lengthOffset);
      assert s[8..y.lengthOffset] == t[8..y.lengthOffset];
      assert end <= |s| ==> s[y.nameOffset..end] == t[y.nameOffset..end];
    }
  }

  /** The part of MatchFiles that packs one entry: the record, and the way to the next one unless it is the only one. */
  method PackOne(buffer: array<byte>, pos: nat, address: nat, remaining: nat, y: Layout, e: Entry, index: nat,
      single: bool)
    returns (size: nat)
    requires pos + remaining <= buffer.Length < 0x1_0000_0000 && WfLayout(y) && WfEntry(e, y) && index < 0x1_0000_0000
    modifies buffer
    ensures size == if remaining < EntrySize(e, y, address + pos) then 0 else EntrySize(e, y, address + pos)
    ensures size > 0 ==>
      && ReadRecord(buffer[pos..pos + size], y) == Some(RecordOf(e, y, index))
      && Ulong(buffer[..], pos) == if single then 0 else size
    ensures buffer[..pos] == old(buffer[..pos])
  {
    size := Fill(buffer, pos, address, remaining, y, e, index);
    if size == 0 || single {
      return;
    }
    ghost var before := buffer[pos..pos + size];
    PutUlong(buffer, pos, size);
    OffsetIsApart(before, buffer[pos..pos + size], y);
  }

  /** MatchFiles' loop, between two entries: n records are packed, and pos is where the next one goes. */
  ghost predicate Page(s: bytes, ms: seq<Entry>, base: nat, n: nat, pos: nat, last: nat, y: Layout, address: nat)
    requires WfLayout(y) && AllWf(ms, y)
  {
    && n <= |ms| && pos == Used(ms, n, y, address) && pos <= |s|
    && Written(s[..pos], ms, base, n, last, y) && (n > 0 ==> Ulong(s[..pos], last) == pos - last)
  }

  lemma PageGrows(s: bytes, t: bytes, ms: seq<Entry>, base: nat, n: nat, pos: nat, last: nat, y: Layout,
      address: nat, size: nat)
    requires WfLayout(y) && AllWf(ms, y) && n < |ms| && Page(s, ms, base, n, pos, last, y, address)
    requires |s| == |t| && s[..pos] == t[..pos] && size == EntrySize(ms[n], y, address + pos) && pos + size <= |t|
    requires ReadRecord(t[pos..pos + size], y) == Some(RecordOf(ms[n], y, base + n + 1))
    ensures Used(ms, n + 1, y, address) == pos + size && Written(t[..pos + size], ms, base, n + 1, pos, y)
  {
    hide ReadRecord, Ulong, RecordOf, Records, AllWf;
    WrittenPacks(s[..pos], ms, base, n, last, y);
    var u := t[..pos + size];
    assert u[..pos] == s[..pos] && u[pos..] == t[pos..pos + size];
  }

  /** The entries still to be listed when a request starts at fileIndex. */
  function Remaining(list: seq<Entry>, matches: Entry -> bool, fileIndex: nat): seq<Entry> {
    From(Selected(list, matches), fileIndex)
  }

  function From(m: seq<Entry>, k: nat): seq<Entry> { if k <= |m| then m[k..] else [] }

  lemma RemainingIsWf(list: seq<Entry>, matches: Entry -> bool, fileIndex: nat, y: Layout)
    requires AllWf(list, y)
    ensures AllWf(Remaining(list, matches, fileIndex), y)
  {
    var ms := Remaining(list, matches, fileIndex);
    forall k | 0 <= k < |ms| ensures WfEntry(ms[k], y) {
      assert ms[k] in Selected(list, matches);
      assert ms[k] in list;
    }
  }

  /** The entry the loop meets is the next of those to be listed. */
  lemma NextSelected(list: seq<Entry>, matches: Entry -> bool, i: nat)
    requires i < |list|
    ensures var k := |Selected(list[..i], matches)|; var m := Selected(list, matches);
      && |Selected(list[..i + 1], matches)| == k + (if matches(list[i]) then 1 else 0)
      && k <= |m| && (matches(list[i]) ==> k < |m| && m[k] == list[i])
  {
    var t := list[..i + 1];
    assert t[..|t| - 1] == list[..i] && t[|t| - 1] == list[i];
    SelectedPrefix(list, matches, i);
    SelectedPrefix(list, matches, i + 1);
  }

  /** From this index on, the ULONG that MatchFiles counts in is negative as the LONG it returns. */
  const LONG_LIMIT: nat := 0x8000_0000

  /** A ULONG, cast to LONG. */
  function AsLong(v: nat): int { if v < LONG_LIMIT then v else v - 0x1_0000_0000 }

  /**
   * MatchFiles: it lists the matching entries from fileIndex on that fit the buffer. The result is the
   * index to go on from, or -1 when nothing was listed; used is the part of the buffer that holds records.
   */
  method MatchFiles(list: seq<Entry>, matches: Entry -> bool, fileIndex: nat, single: bool,
                    buffer: array<byte>, address: nat, y: Layout)
    returns (index: int, used: nat)
    requires WfLayout(y) && AllWf(list, y) && |list| < 0xFFFF_FFFF && 4 <= buffer.Length < 0x1_0000_0000
    modifies buffer
    ensures used <= buffer.Length && AllWf(Remaining(list, matches, fileIndex), y)
    ensures var ms := Remaining(list, matches, fileIndex); var n := Fits(ms, 0, y, address, buffer.Length, single);
      && index == (if n == 0 then -1 else AsLong(fileIndex + n))
      && used == Used(ms, n, y, address) && FillsUp(ms, n, y, address, buffer.Length, single)
      && (n > 0 ==> Walk(buffer[..used], y) == Records(ms, fileIndex, n, y))
      && (n > 0 ==>
            forall k :: 0 <= k < n ==>
              && Walk(buffer[..used], y)[k].index == fileIndex + k + 1
              && Walk(buffer[..used], y)[k].name == ms[k].name
              && WfEntry(ms[k], y) && Walk(buffer[..used], y)[k].info == ms[k].info[..y.lengthOffset - 8])
  {
    hide Fits, Used, Walk, Records, Written, AllWf, WfEntry, Remaining, FillsUp;
    ghost var ms := Remaining(list, matches, fileIndex);
    FitsFillsUp(ms, y, address, buffer.Length, single);
    RemainingIsWf(list, matches, fileIndex, y);
    var n, last, remaining := FillPage(list, matches, fileIndex, single, buffer, address, y);
    used := buffer.Length - remaining;
    ClearLast(buffer, used, last, y, ms, fileIndex, n);
    if n > 0 {
      WrittenReads(buffer[..used], ms, fileIndex, n, last, y);
    }
    index := if n == 0 then -1 else AsLong(fileIndex + n);
  }

  /** Since there is no entry after the last one, its NextEntryOffset is cleared. */
  method ClearLast(buffer: array<byte>, used: nat, last: nat, y: Layout, ghost ms: seq<Entry>, ghost base: nat,
      ghost n: nat)
    requires used <= buffer.Length && last + 4 <= buffer.Length && WfLayout(y) && n <= |ms| && AllWf(ms, y)
    requires Written(buffer[..used], ms, base, n, last, y)
    modifies buffer
    ensures Written(buffer[..used], ms, base, n, last, y) && (n > 0 ==> Ulong(buffer[..used], last) == 0)
  {
    hide Packed, RecordOf, Records, AllWf, ReadRecord;
    ghost var before := buffer[..used];
    PutUlong(buffer, last, 0);
    ghost var after := buffer[..used];
    if n > 0 {
      assert after[..last] == before[..last];
      assert after[last..][4..] == before[last..][4..];
      OffsetIsApart(before[last..], after[last..], y);
    }
  }

  /** The loop of MatchFiles; n counts the entries it packed. */
  method FillPage(list: seq<Entry>, matches: Entry -> bool, fileIndex: nat, single: bool, buffer: array<byte>,
      address: nat, y: Layout)
    returns (n: nat, last: nat, remaining: nat)
    requires WfLayout(y) && AllWf(list, y) && |list| < 0xFFFF_FFFF && 4 <= buffer.Length < 0x1_0000_0000
    modifies buffer
    ensures AllWf(Remaining(list, matches, fileIndex), y)
    ensures var ms := Remaining(list, matches, fileIndex);
      && n == Fits(ms, 0, y, address, buffer.Length, single) && remaining <= buffer.Length && last + 4 <= buffer.Length
      && buffer.Length - remaining == Used(ms, n, y, address)
      && Written(buffer[..buffer.Length - remaining], ms, fileIndex, n, last, y)
  {
    hide RecordOf, Records, AllWf, ReadRecord, Written, Packed, Used, EntrySize, Selected;
    ghost var ms := Remaining(list, matches, fileIndex);
    RemainingIsWf(list, matches, fileIndex, y);
    EmptyPage(buffer[..], ms, fileIndex, y, address);
    var i: nat, index: nat, pos: nat := 0, 0, 0;
    n, last, remaining := 0, 0, buffer.Length;
    NothingSelected(list[..0], matches);
    while i < |list|
      invariant i <= |list| && index == |Selected(list[..i], matches)| <= i
      invariant n == if index > fileIndex then index - fileIndex else 0
      invariant Page(buffer[..], ms, fileIndex, n, pos, last, y, address) && remaining == buffer.Length - pos
      invariant last + 4 <= buffer.Length
      invariant Fits(ms, 0, y, address, buffer.Length, single) == Fits(ms, n, y, address, buffer.Length, single)
    {
      NextSelected(list, matches, i);
      if matches(list[i]) {
        if fileIndex <= index {
          ghost var before := buffer[..];
          EntryAt(list, matches, fileIndex, i, y);
          UsedMore(ms, n, y, address);
          var size := PackOne(buffer, pos, address, remaining, y, list[i], index + 1, single);
          if size == 0 {
            assert buffer[..pos] == before[..pos];
            SamePage(before, buffer[..], ms, fileIndex, n, pos, last, y, address);
            return;
          }
          PageGrows(before, buffer[..], ms, fileIndex, n, pos, last, y, address, size);
          last := pos;
          remaining := remaining - size;
          if single {
            n := n + 1;
            return;
          }
          UlongAt(buffer[..pos + size], pos);
          pos := pos + size;
          n := n + 1;
        }
        index := index + 1;
      }
      i := i + 1;
    }
    AllSeen(list, matches, fileIndex);
  }

  lemma EmptyPage(s: bytes, ms: seq<Entry>, base: nat, y: Layout, address: nat)
    requires WfLayout(y) && AllWf(ms, y)
    ensures Page(s, ms, base, 0, 0, 0, y, address)
  {
  }

  lemma NothingSelected(list: seq<Entry>, matches: Entry -> bool)
    requires list == []
    ensures Selected(list, matches) == []
  {
  }

  lemma UsedMore(ms: seq<Entry>, n: nat, y: Layout, address: nat)
    requires n < |ms|
    ensures Used(ms, n + 1, y, address)
      == Used(ms, n, y, address) + EntrySize(ms[n], y, address + Used(ms, n, y, address))
    ensures EntrySize(ms[n], y, address + Used(ms, n, y, address)) >= y.size
  {
  }

  lemma SamePage(s: bytes, t: bytes, ms: seq<Entry>, base: nat, n: nat, pos: nat, last: nat, y: Layout, address: nat)
    requires WfLayout(y) && AllWf(ms, y) && Page(s, ms, base, n, pos, last, y, address)
    requires |s| == |t| && s[..pos] == t[..pos]
    ensures Page(t, ms, base, n, pos, last, y, address)
  {
  }

  lemma EntryAt(list: seq<Entry>, matches: Entry -> bool, fileIndex: nat, i: nat, y: Layout)
    requires i < |list| && matches(list[i]) && AllWf(list, y) && fileIndex <= |Selected(list[..i], matches)|
    ensures var n := |Selected(list[..i], matches)| - fileIndex; var ms := Remaining(list, matches, fileIndex);
      n < |ms| && ms[n] == list[i] && WfEntry(list[i], y)
  {
    NextSelected(list, matches, i);
  }

  lemma AllSeen(list: seq<Entry>, matches: Entry -> bool, fileIndex: nat)
    ensures var k := |Selected(list[..|list|], matches)|;
      |Remaining(list, matches, fileIndex)| == if k > fileIndex then k - fileIndex else 0
  {
    assert list[..|list|] == list;
  }

  // ----- paging -----

  /** What varies from one request for a page to the next. */
  datatype Request = Request(address: nat, length: nat, single: bool)

  /**
   * How many of the matching entries m the page from index k on lists; a page that ends at an index too
   * large for a LONG is refused like an empty one.
   */
  function PageSize(m: seq<Entry>, k: nat, r: Request, y: Layout): (n: nat)
    ensures n <= |From(m, k)| && (k <= |m| ==> k + n <= |m|)
    ensures n > 0 ==> k + n < LONG_LIMIT
  {
    var n := Fits(From(m, k), 0, y, r.address, r.length, r.single);
    if k + n < LONG_LIMIT then n else 0
  }

  /** The entries a reader gets who feeds each index back until a page is refused, and the index reached. */
  function Serve(m: seq<Entry>, k: nat, rs: seq<Request>, y: Layout): (seq<Entry>, nat)
    requires k <= |m|
    decreases |rs|
  {
    if rs == [] || PageSize(m, k, rs[0], y) == 0 then ([], k)
    else
      var n := PageSize(m, k, rs[0], y);
      var rest := Serve(m, k + n, rs[1..], y);
      (m[k..k + n] + rest.0, rest.1)
  }

  /** A page is refused exactly when nothing is left, the next entry alone is too long, or the page ends too far. */
  lemma RefusedIff(m: seq<Entry>, k: nat, r: Request, y: Layout)
    requires k <= |m|
    ensures PageSize(m, k, r, y) == 0 <==>
      || k == |m|
      || EntrySize(m[k], y, r.address) > r.length
      || k + Fits(m[k..], 0, y, r.address, r.length, r.single) >= LONG_LIMIT
  {
    if k < |m| {
      UsedMore(m[k..], 0, y, r.address);
    }
  }

  /** Whatever the buffers, the pages joined are the matching entries in order, each once, up to the index reached. */
  lemma {:induction false} PagesAreInOrder(m: seq<Entry>, k: nat, rs: seq<Request>, y: Layout)
    requires k <= |m|
    ensures var (es, end) := Serve(m, k, rs, y); k <= end <= |m| && es == m[k..end]
    decreases |rs|
  {
    hide PageSize;
    if rs != [] && PageSize(m, k, rs[0], y) > 0 {
      var n := PageSize(m, k, rs[0], y);
      PagesAreInOrder(m, k + n, rs[1..], y);
      var end := Serve(m, k + n, rs[1..], y).1;
      assert m[k..k + n] + m[k + n..end] == m[k..end];
    }
  }

  /** Each buffer holds the entry that comes next when it is used, for as long as there are requests and entries. */
  ghost predicate FitsNext(m: seq<Entry>, k: nat, rs: seq<Request>, y: Layout)
    requires k <= |m|
    decreases |rs|
  {
    rs == [] || k == |m| || (
      && EntrySize(m[k], y, rs[0].address) <= rs[0].length
      && FitsNext(m, k + PageSize(m, k, rs[0], y), rs[1..], y))
  }

  /**
   * Nothing is lost: when each buffer holds the entry that comes next, enough requests list every matching
   * entry, exactly when a LONG holds their number.
   */
  lemma {:induction false} PagesAreComplete(m: seq<Entry>, k: nat, rs: seq<Request>, y: Layout)
    requires k < |m| && |rs| >= |m| - k && FitsNext(m, k, rs, y)
    ensures Serve(m, k, rs, y) == (m[k..], |m|) <==> |m| < LONG_LIMIT
    decreases |rs|
  {
    hide EntrySize, Fits, PageSize, Serve;
    RefusedIff(m, k, rs[0], y);
    FirstPage(m, k, rs, y);
    var n := PageSize(m, k, rs[0], y);
    if n > 0 && k + n < |m| {
      PagesAreComplete(m, k + n, rs[1..], y);
    }
  }

  lemma ServeStep(m: seq<Entry>, k: nat, rs: seq<Request>, y: Layout)
    requires k <= |m| && rs != []
    ensures var n := PageSize(m, k, rs[0], y);
      && (n == 0 ==> Serve(m, k, rs, y) == ([], k))
      && (n > 0 ==>
            var rest := Serve(m, k + n, rs[1..], y);
            Serve(m, k, rs, y) == (m[k..k + n] + rest.0, rest.1))
  {
  }

  /** A listing is complete when its first page is, or when the rest of it is. */
  lemma FirstPage(m: seq<Entry>, k: nat, rs: seq<Request>, y: Layout)
    requires k < |m| && rs != []
    ensures var n := PageSize(m, k, rs[0], y);
      Serve(m, k, rs, y) == (m[k..], |m|) <==>
        n > 0 && (k + n == |m| || Serve(m, k + n, rs[1..], y) == (m[k + n..], |m|))
  {
    hide PageSize, Serve;
    ServeStep(m, k, rs, y);
    PagesAreInOrder(m, k, rs, y);
    var n := PageSize(m, k, rs[0], y);
    if n > 0 {
      PagesAreInOrder(m, k + n, rs[1..], y);
      assert m[k..|m|] == m[k..] && m[k + n..|m|] == m[k + n..];
      if k + n == |m| {
        NothingLeft(m, rs[1..], y);
      }
    }
  }

  lemma NothingLeft(m: seq<Entry>, rs: seq<Request>, y: Layout)
    ensures Serve(m, |m|, rs, y) == ([], |m|)
  {
  }

  // ----- the cached list -----

  /** What the file system offers to list a directory; None is a failure. */
  datatype Provider =
    | FindFilesWithPattern(found: Option<seq<Entry>>)
    | FindFiles(found: Option<seq<Entry>>)
    | NoProvider

  datatype Status = Success | NoSuchFile | NoMoreFiles

  function Everything(): Entry -> bool { _ => true }

  /** DOKAN_OPEN_INFO: the entries found when the listing of this handle began. */
  class OpenInfo {
    var list: seq<Entry>

    constructor ()
      ensures list == []
    {
      list := [];
    }

    /** The part of DispatchDirectoryInformation that fills the list, and whether the pattern is checked later. */
    method Fetch(provider: Provider, fileIndex: nat) returns (ok: bool, patternCheck: bool)
      modifies this
      ensures fileIndex > 0 && old(list) != [] ==> ok && patternCheck && list == old(list)
      ensures fileIndex == 0 || old(list) == [] ==>
        && ok == (!provider.NoProvider? && provider.found.Some?) && patternCheck == !provider.FindFilesWithPattern?
        && (ok ==> list == provider.found.value)
    {
      patternCheck := true;
      ok := true;
      if fileIndex == 0 {
        list := [];
      }
      if list == [] {
        match provider {
          case FindFilesWithPattern(found) =>
            patternCheck := false;
            ok := found.Some?;
            list := if ok then found.value else [];
          case FindFiles(found) =>
            ok := found.Some?;
            list := if ok then found.value else [];
          case NoProvider =>
            ok := false;
        }
      }
    }

    /**
     * DispatchDirectoryInformation for a class of information it handles. With FindFiles every page of a
     * listing is a page of the same matching entries, from the index that was handed back.
     */
    method Dispatch(provider: Provider, pattern: Option<Entry -> bool>, fileIndex: nat, single: bool,
                    buffer: array<byte>, address: nat, y: Layout)
      returns (status: Status, index: nat, used: nat)
      requires WfLayout(y) && 4 <= buffer.Length < 0x1_0000_0000 && AllWf(list, y) && |list| < 0xFFFF_FFFF
      requires !provider.NoProvider? && provider.found.Some? ==>
        AllWf(provider.found.value, y) && |provider.found.value| < 0xFFFF_FFFF
      modifies this, buffer
      ensures AllWf(list, y) && |list| < 0xFFFF_FFFF && used <= buffer.Length
      ensures status != Success ==> index == fileIndex && used == 0 && list == []
      ensures
        var fetch := fileIndex == 0 || old(list) == [];
        var failed := fetch && (provider.NoProvider? || provider.found == None);
        && (failed ==> status == if fileIndex == 0 then NoSuchFile else NoMoreFiles)
        && (!failed ==>
              var es := if fetch then provider.found.value else old(list);
              var ownPattern := fetch && provider.FindFilesWithPattern?;
              var matches := if pattern.Some? && !ownPattern then pattern.value else Everything();
              var m := Selected(es, matches);
              var n := PageSize(m, fileIndex, Request(address, buffer.Length, single), y);
              && (n == 0 ==> status == NoMoreFiles)
              && (n > 0 ==>
                    && status == Success && index == fileIndex + n && list == es && AllWf(From(m, fileIndex), y)
                    && Walk(buffer[..used], y) == Records(From(m, fileIndex), fileIndex, n, y)))
    {
      hide Selected, Fits, Walk, Records, WfEntry;
      var ok, patternCheck := Fetch(provider, fileIndex);
      if !ok {
        status := if fileIndex == 0 then NoSuchFile else NoMoreFiles;
        list := [];
        return status, fileIndex, 0;
      }
      var next;
      var matches := if patternCheck && pattern.Some? then pattern.value else Everything();
      next, used := MatchFiles(list, matches, fileIndex, single, buffer, address, y);
      if next < 0 {
        list := [];
        return NoMoreFiles, fileIndex, 0;
      }
      return Success, next, used;
    }
  }

  // ----- a provider that applies the pattern itself -----

  /**
   * A listing with FindFilesWithPattern: the first page is not checked against the pattern, the later ones
   * are, although their indices count what the first page listed.
   */
  function ServeWithPattern(list: seq<Entry>, matches: Entry -> bool, rs: seq<Request>, y: Layout): seq<Entry> {
    if rs == [] then []
    else
      var n := PageSize(list, 0, rs[0], y);
      var m := Selected(list, matches);
      if n == 0 || n > |m| then list[..n] else list[..n] + Serve(m, n, rs[1..], y).0
  }

  predicate AllMatch(list: seq<Entry>, matches: Entry -> bool) { forall k :: 0 <= k < |list| ==> matches(list[k]) }

  lemma {:induction false} AllMatchSelects(list: seq<Entry>, matches: Entry -> bool)
    ensures AllMatch(list, matches) <==> Selected(list, matches) == list
    ensures !AllMatch(list, matches) ==> |Selected(list, matches)| < |list|
    decreases |list|
  {
    if list != [] {
      var t := list[..|list| - 1];
      AllMatchSelects(t, matches);
      assert list == t + [list[|list| - 1]];
      if !AllMatch(t, matches) {
        var k :| 0 <= k < |t| && !matches(t[k]);
        assert !matches(list[k]);
      }
    }
  }

  /**
   * Such a listing is complete exactly when its first page holds everything, or the pages of a plain
   * listing reach the end and every entry the provider found matches by the library's own rules too.
   */
  lemma {:induction false} WithPatternCompleteIff(list: seq<Entry>, matches: Entry -> bool, rs: seq<Request>, y: Layout)
    ensures ServeWithPattern(list, matches, rs, y) == list <==>
      || list == []
      || (rs != [] && PageSize(list, 0, rs[0], y) == |list|)
      || (AllMatch(list, matches) && Serve(list, 0, rs, y).1 == |list|)
  {
    hide Selected, PageSize, AllMatch;
    AllMatchSelects(list, matches);
    PagesAreInOrder(list, 0, rs, y);
    if rs != [] {
      var m, n := Selected(list, matches), PageSize(list, 0, rs[0], y);
      assert list[..n] == list <==> n == |list|;
      if 0 < n <= |m| {
        PagesAreInOrder(m, n, rs[1..], y);
        assert list[0..n] == list[..n];
      }
    }
  }

  /** With buffers that hold what comes next, and requests enough, only the first page and the pattern decide. */
  lemma {:induction false} WithPatternNeedsMatches(
      list: seq<Entry>, matches: Entry -> bool, rs: seq<Request>, y: Layout)
    requires rs != [] && |rs| >= |list| && |list| < LONG_LIMIT && FitsNext(list, 0, rs, y)
    ensures ServeWithPattern(list, matches, rs, y) == list <==>
      PageSize(list, 0, rs[0], y) == |list| || AllMatch(list, matches)
  {
    hide PageSize, FitsNext, AllMatch, ServeWithPattern, Serve;
    WithPatternCompleteIff(list, matches, rs, y);
    if list != [] {
      PagesAreComplete(list, 0, rs, y);
    }
  }

  const ENTRY_A: Entry := Entry([], [0x61, 0])
  const ENTRY_B: Entry := Entry([], [0x62, 0])

  /** Asked for one entry at a time, a provider finds a and b; only b matches, and b is what gets lost. */
  lemma MatchIsLost()
    ensures var r, matches, y := Request(0, 512, true), (e: Entry) => e == ENTRY_B, LayoutOf(NamesInfo);
      && WfEntry(ENTRY_A, y) && WfEntry(ENTRY_B, y)
      && ServeWithPattern([ENTRY_A, ENTRY_B], matches, [r, r], y) == [ENTRY_A]
  {
    var list, y := [ENTRY_A, ENTRY_B], LayoutOf(NamesInfo);
    var r, matches := Request(0, 512, true), (e: Entry) => e == ENTRY_B;
    var rs := [r, r];
    RefusedIff(list, 0, r, y);
    SinglePage(list, 0, r, y);
    assert ENTRY_A.name[0] != ENTRY_B.name[0];
    assert list[..1] == [ENTRY_A] && [ENTRY_A][..0] == [];
    assert Selected([ENTRY_A], matches) == [];
    assert Selected(list, matches) == [ENTRY_B];
    NothingLeft([ENTRY_B], rs[1..], y);
    hide PageSize, Selected;
  }

  lemma SinglePage(m: seq<Entry>, k: nat, r: Request, y: Layout)
    requires k <= |m| && r.single
    ensures PageSize(m, k, r, y) <= 1 && Fits(m[k..], 0, y, r.address, r.length, r.single) <= 1
  {
  }

  // ----- reading a listing with the code -----

  /** The entries a handle's listing shows, page by page, in the end. */
  function Listing(provider: Provider, pattern: Option<Entry -> bool>, rs: seq<Request>, y: Layout): seq<Entry> {
    var matches := if pattern.Some? then pattern.value else Everything();
    match provider
    case FindFiles(Some(list)) => Serve(Selected(list, matches), 0, rs, y).0
    case FindFilesWithPattern(Some(list)) => ServeWithPattern(list, matches, rs, y)
    case _ => []
  }

  /** The pages from index k on, which may be past the end. */
  function Later(m: seq<Entry>, k: nat, rs: seq<Request>, y: Layout): seq<Entry> {
    if k <= |m| then Serve(m, k, rs, y).0 else []
  }

  lemma LaterPages(m: seq<Entry>, k: nat, rs: seq<Request>, y: Layout)
    ensures rs == [] ==> Later(m, k, rs, y) == []
    ensures rs != [] ==>
      var n := PageSize(m, k, rs[0], y);
      && (n == 0 ==> Later(m, k, rs, y) == [])
      && (n > 0 ==> k + n <= |m| && Later(m, k, rs, y) == m[k..k + n] + Later(m, k + n, rs[1..], y))
  {
  }

  /** The records are those of the entries es in order, each with the index to go on from. */
  ghost predicate Shows(got: seq<Record>, es: seq<Entry>, y: Layout)
    requires WfLayout(y)
  {
    AllWf(es, y) && got == Records(es, 0, |es|, y)
  }

  lemma ReadMore(got: seq<Record>, es: seq<Entry>, m: seq<Entry>, k: nat, n: nat, y: Layout)
    requires WfLayout(y) && Shows(got, es, y) && |es| == k && k + n <= |m| && AllWf(From(m, k), y)
    ensures Shows(got + Records(From(m, k), k, n, y), es + m[k..k + n], y)
  {
    var more := es + m[k..k + n];
    forall i | 0 <= i < |more| ensures WfEntry(more[i], y) {
      if i >= k { assert more[i] == From(m, k)[i - k]; }
    }
  }

  predicate Failed(provider: Provider) { provider.NoProvider? || provider.found == None }

  /** What a provider may return: entries as FindFiles reports them. */
  ghost predicate WfProvider(provider: Provider, y: Layout) {
    !Failed(provider) ==> AllWf(provider.found.value, y) && |provider.found.value| < 0xFFFF_FFFF
  }

  /** What a page is checked against: the first one of a provider that applies the pattern itself, nothing. */
  function Checked(provider: Provider, pattern: Option<Entry -> bool>, index: nat): Entry -> bool {
    if pattern.Some? && !(index == 0 && provider.FindFilesWithPattern?) then pattern.value else Everything()
  }

  /** A request for one page, and a reader who walks the records of the buffer that comes back. */
  method ReadPage(info: OpenInfo, provider: Provider, pattern: Option<Entry -> bool>, index: nat, r: Request, y: Layout,
      ghost es: seq<Entry>)
    returns (ok: bool, page: seq<Record>)
    requires WfLayout(y) && 4 <= r.length < 0x1_0000_0000 && WfProvider(provider, y)
    requires AllWf(info.list, y) && |info.list| < 0xFFFF_FFFF
    requires if index == 0 then !Failed(provider) ==> provider.found == Some(es) else info.list == es && es != []
    modifies info
    ensures AllWf(info.list, y) && |info.list| < 0xFFFF_FFFF
    ensures var m := Selected(es, Checked(provider, pattern, index)); var n := PageSize(m, index, r, y);
      && (ok <==> n > 0 && !(index == 0 && Failed(provider))) && (!ok ==> page == [])
      && (ok ==>
            && info.list == es && AllWf(From(m, index), y) && n <= |From(m, index)|
            && page == Records(From(m, index), index, n, y))
  {
    hide Selected, PageSize, Walk, Records, AllWf;
    var buffer := new byte[r.length];
    var status, next, used := info.Dispatch(provider, pattern, index, r.single, buffer, r.address, y);
    ok := status == Success;
    page := if ok then Walk(buffer[..used], y) else [];
  }

  /**
   * A whole listing: the index each page ends with is fed back until a page is refused or the requests run
   * out. What is read is the listing, in order.
   */
  method ReadAll(provider: Provider, pattern: Option<Entry -> bool>, rs: seq<Request>, y: Layout)
    returns (got: seq<Record>)
    requires WfLayout(y) && WfProvider(provider, y)
    requires forall k :: 0 <= k < |rs| ==> 4 <= rs[k].length < 0x1_0000_0000
    ensures Shows(got, Listing(provider, pattern, rs, y), y)
  {
    hide Selected, PageSize, Walk, Records, AllWf, Serve, Shows, Listing, Later, From;
    var info := new OpenInfo();
    NothingRead(provider, pattern, rs, y);
    got := [];
    if |rs| == 0 {
      return;
    }
    ghost var list := if Failed(provider) then [] else provider.found.value;
    ghost var first := Selected(list, Checked(provider, pattern, 0));
    FirstOfListing(provider, pattern, rs, y, list);
    var ok;
    ok, got := ReadPage(info, provider, pattern, 0, rs[0], y, list);
    if ok {
      ghost var n := PageSize(first, 0, rs[0], y);
      FirstRead(first, n, y);
      got := ReadRest(info, provider, pattern, rs[1..], y, list, first[..n], got);
    }
  }

  /** The pages after the first one. */
  method ReadRest(info: OpenInfo, provider: Provider, pattern: Option<Entry -> bool>, rs: seq<Request>, y: Layout,
      ghost list: seq<Entry>, ghost before: seq<Entry>, page: seq<Record>)
    returns (got: seq<Record>)
    requires WfLayout(y) && WfProvider(provider, y)
    requires forall k :: 0 <= k < |rs| ==> 4 <= rs[k].length < 0x1_0000_0000
    requires info.list == list != [] && AllWf(list, y) && |list| < 0xFFFF_FFFF
    requires before != [] && |page| == |before| && Shows(page, before, y)
    modifies info
    ensures Shows(got, before + Later(Selected(list, Checked(provider, pattern, 1)), |before|, rs, y), y)
  {
    hide Selected, PageSize, Walk, Records, AllWf, Serve, Shows, Later, From;
    ghost var m, es := Selected(list, Checked(provider, pattern, 1)), before;
    got := page;
    var i := 0;
    assert rs[0..] == rs;
    while i < |rs|
      invariant i <= |rs| && |got| == |es| > 0 && Shows(got, es, y)
      invariant info.list == list
      invariant before + Later(m, |before|, rs, y) == es + Later(m, |es|, rs[i..], y)
    {
      LaterPages(m, |es|, rs[i..], y);
      var ok, more := ReadPage(info, provider, pattern, |got|, rs[i], y, list);
      if !ok {
        break;
      }
      ghost var n := PageSize(m, |es|, rs[i], y);
      ReadMore(got, es, m, |es|, n, y);
      Joined(es, m[|es|..|es| + n], Later(m, |es| + n, rs[i + 1..], y));
      assert rs[i..][1..] == rs[i + 1..];
      es := es + m[|es|..|es| + n];
      got := got + more;
      i := i + 1;
    }
    LaterPages(m, |es|, rs[i..], y);
    assert es + [] == es;
  }

  lemma Joined(a: seq<Entry>, b: seq<Entry>, c: seq<Entry>)
    ensures a + (b + c) == (a + b) + c
  {
  }

  lemma NothingRead(provider: Provider, pattern: Option<Entry -> bool>, rs: seq<Request>, y: Layout)
    requires WfLayout(y)
    ensures Shows([], [], y) && (rs == [] ==> Listing(provider, pattern, rs, y) == [])
  {
  }

  lemma FirstRead(m: seq<Entry>, n: nat, y: Layout)
    requires WfLayout(y) && n <= |m| && AllWf(From(m, 0), y)
    ensures Shows(Records(From(m, 0), 0, n, y), m[..n], y)
  {
    assert From(m, 0) == m;
  }

  /** The first page of a listing, and the ones after it. */
  lemma FirstOfListing(
      provider: Provider, pattern: Option<Entry -> bool>, rs: seq<Request>, y: Layout, list: seq<Entry>)
    requires rs != [] && list == if Failed(provider) then [] else provider.found.value
    ensures
      var first := Selected(list, Checked(provider, pattern, 0));
      var m := Selected(list, Checked(provider, pattern, 1));
      var n := PageSize(first, 0, rs[0], y);
      && n <= |first| && |first[..n]| == n
      && (Failed(provider) || n == 0 ==> Listing(provider, pattern, rs, y) == [])
      && (!Failed(provider) && n > 0 ==>
            list != [] && Listing(provider, pattern, rs, y) == first[..n] + Later(m, |first[..n]|, rs[1..], y))
  {
    hide PageSize, Serve, Selected;
    EverythingSelected(list);
    ServeStep(Selected(list, Checked(provider, pattern, 0)), 0, rs, y);
  }

  lemma {:induction false} EverythingSelected(list: seq<Entry>)
    ensures Selected(list, Everything()) == list
    ensures forall matches :: list == [] ==> Selected(list, matches) == []
  {
    AllMatchSelects(list, Everything());
  }
}
