/**
 * Model of the font-level half of freetype/truetype/truetype.go: the `data`
 * cursor, the table directory read by Parse, the sanity checks of the head,
 * maxp, cmap, kern and hhea tables, and the three lookups a Font answers:
 * Index (cmap format 4), HMetric (hmtx) and Kerning (kern, binary search).
 *
 * Go panics (a slice index out of range on malformed data) are not errors
 * the package returns, but they end the call; the model returns them as the
 * explicit error `Panic` so that every input has an outcome.
 */
module TrueTypeFont {
  import opened Ints

  datatype Error =
    | FormatError(msg: string)       // the input is not a valid TrueType font
    | UnsupportedError(msg: string)  // a valid but unimplemented feature
    | Panic(msg: string)             // a Go runtime panic: an index or slice bound out of range

  datatype Outcome<T> = Ok(value: T) | Fail(err: Error)

  /** The panic of reading past the end of a slice; index and slice-bound panics are not told apart. */
  const OutOfRange: Error := Panic("index out of range")

  // ---------------------------------------------------------------------------
  // The data cursor
  // ---------------------------------------------------------------------------

  /** A byte slice read as a stream of big-endian integers; every read drops what it read. */
  class Data {
    var rest: seq<byte>

    constructor (s: seq<byte>)
      ensures rest == s
    {
      rest := s;
    }

    /** The next big-endian uint32; the cursor moves on by exactly 4 bytes. */
    method U32() returns (x: uint32)
      requires |rest| >= 4
      modifies this
      ensures x == BE32(old(rest), 0)
      ensures rest == old(rest)[4..]
    {
      x := (rest[0] as int) * 0x100_0000 + (rest[1] as int) * 0x1_0000 + (rest[2] as int) * 0x100 + rest[3];
      rest := rest[4..];
    }

    /** The next big-endian uint16; the cursor moves on by exactly 2 bytes. */
    method U16() returns (x: uint16)
      requires |rest| >= 2
      modifies this
      ensures x == BE16(old(rest), 0)
      ensures rest == old(rest)[2..]
    {
      x := (rest[0] as int) * 0x100 + rest[1];
      rest := rest[2..];
    }

    /** The next byte; the cursor moves on by exactly 1 byte. */
    method U8() returns (x: byte)
      requires |rest| >= 1
      modifies this
      ensures x == old(rest)[0]
      ensures rest == old(rest)[1..]
    {
      x := rest[0];
      rest := rest[1..];
    }

    /** Skips the next n bytes. */
    method Skip(n: nat)
      requires n <= |rest|
      modifies this
      ensures rest == old(rest)[n..]
    {
      rest := rest[n..];
    }
  }

  // ---------------------------------------------------------------------------
  // The table directory
  // ---------------------------------------------------------------------------

  /**
   * The table an 8-byte (offset, length) directory field designates, or a
   * FormatError when it does not fit in the file. Go's int is 64 bits wide,
   * so the offset and length read as uint32 are never negative and their sum
   * never overflows; only the end check can fail.
   */
  function TableSpec(ttf: seq<byte>, offsetLength: seq<byte>): Outcome<seq<byte>>
    requires |offsetLength| >= 8
  {
    var offset := BE32(offsetLength, 0);
    var length := BE32(offsetLength, 4);
    if offset + length <= |ttf| then Ok(ttf[offset..offset + length])
    else Fail(FormatError("offset + length too large"))
  }

  /** readTable: the slice of the file that a directory entry's offset and length give. */
  method ReadTable(ttf: seq<byte>, offsetLength: seq<byte>) returns (r: Outcome<seq<byte>>)
    requires |offsetLength| >= 8
    ensures r.Ok? <==> BE32(offsetLength, 0) + BE32(offsetLength, 4) <= |ttf|
    ensures r.Ok? ==> |r.value| == BE32(offsetLength, 4)
    ensures r.Ok? ==> r.value == ttf[BE32(offsetLength, 0)..BE32(offsetLength, 0) + BE32(offsetLength, 4)]
    ensures r == TableSpec(ttf, offsetLength)
  {
    var d := new Data(offsetLength);
    var offset := d.U32();
    var length := d.U32();
    var end: int := (offset as int) + length;
    if end > |ttf| {
      return Fail(FormatError("offset + length too large"));
    }
    return Ok(ttf[offset..end]);
  }

  /** The slices of the eight tables the package reads. */
  datatype Tables = Tables(cmap: seq<byte>, glyf: seq<byte>, head: seq<byte>, hhea: seq<byte>,
                           hmtx: seq<byte>, kern: seq<byte>, loca: seq<byte>, maxp: seq<byte>)

  const NoTables: Tables := Tables([], [], [], [], [], [], [], [])

  /** The tables the package reads; every other table is ignored. */
  datatype TableName = Cmap | Glyf | Head | Hhea | Hmtx | Kern | Loca | Maxp

  /**
   * The table a four-byte ASCII tag names, if it is one of the eight. The
   * tag is taken as its big-endian value: two four-byte strings are equal
   * exactly when those values are.
   */
  function NameOf(tag: uint32): Option<TableName>
  {
    if tag == 0x636d_6170 then Some(Cmap)       // "cmap"
    else if tag == 0x676c_7966 then Some(Glyf)  // "glyf"
    else if tag == 0x6865_6164 then Some(Head)  // "head"
    else if tag == 0x6868_6561 then Some(Hhea)  // "hhea"
    else if tag == 0x686d_7478 then Some(Hmtx)  // "hmtx"
    else if tag == 0x6b65_726e then Some(Kern)  // "kern"
    else if tag == 0x6c6f_6361 then Some(Loca)  // "loca"
    else if tag == 0x6d61_7870 then Some(Maxp)  // "maxp"
    else None
  }

  function Field(t: Tables, name: TableName): seq<byte>
  {
    match name
    case Cmap => t.cmap
    case Glyf => t.glyf
    case Head => t.head
    case Hhea => t.hhea
    case Hmtx => t.hmtx
    case Kern => t.kern
    case Loca => t.loca
    case Maxp => t.maxp
  }

  /** t with the named table replaced by s and every other table kept. */
  function WithTable(t: Tables, name: TableName, s: seq<byte>): (r: Tables)
    ensures Field(r, name) == s
    ensures forall other :: other != name ==> Field(r, other) == Field(t, other)
  {
    match name
    case Cmap => t.(cmap := s)
    case Glyf => t.(glyf := s)
    case Head => t.(head := s)
    case Hhea => t.(hhea := s)
    case Hmtx => t.(hmtx := s)
    case Kern => t.(kern := s)
    case Loca => t.(loca := s)
    case Maxp => t.(maxp := s)
  }

  /** The tag of directory entry i. */
  function EntryTag(ttf: seq<byte>, i: nat): uint32
    requires 16 * i + 16 <= |ttf|
  {
    BE32(ttf, 16 * i + 12)
  }

  /** The offset and length fields of directory entry i. */
  function EntryPlace(ttf: seq<byte>, i: nat): (r: seq<byte>)
    requires 16 * i + 28 <= |ttf|
    ensures |r| == 8
  {
    ttf[16 * i + 20..16 * i + 28]
  }

  /**
   * The tables after reading directory entries i..n-1 into t, in order: a
   * later entry with the same tag replaces an earlier one, and the first
   * entry with a known tag whose table does not fit ends the walk.
   */
  function DirectoryFrom(ttf: seq<byte>, n: nat, i: nat, t: Tables): Outcome<Tables>
    requires i <= n && 16 * n + 12 <= |ttf|
    decreases n - i
  {
    if i == n then Ok(t)
    else
      match NameOf(EntryTag(ttf, i))
      case None => DirectoryFrom(ttf, n, i + 1, t)
      case Some(name) =>
        match TableSpec(ttf, EntryPlace(ttf, i))
        case Fail(e) => Fail(e)
        case Ok(s) => DirectoryFrom(ttf, n, i + 1, WithTable(t, name, s))
  }

  /** A directory with no entry of a known tag yields no tables, whatever else it lists. */
  lemma {:induction false} UnknownTagsIgnored(ttf: seq<byte>, n: nat, i: nat, t: Tables)
    requires i <= n && 16 * n + 12 <= |ttf|
    requires forall k :: i <= k < n ==> NameOf(EntryTag(ttf, k)).None?
    ensures DirectoryFrom(ttf, n, i, t) == Ok(t)
    decreases n - i
  {
    if i < n {
      UnknownTagsIgnored(ttf, n, i + 1, t);
    }
  }

  /** When the walk succeeds, a table is the one the LAST directory entry with its tag designates. */
  lemma {:induction false} LastEntryWins(ttf: seq<byte>, n: nat, i: nat, t: Tables, j: nat, name: TableName)
    requires i <= j < n && 16 * n + 12 <= |ttf|
    requires NameOf(EntryTag(ttf, j)) == Some(name)
    requires forall k :: j < k < n ==> NameOf(EntryTag(ttf, k)) != Some(name)
    requires DirectoryFrom(ttf, n, i, t).Ok?
    ensures TableSpec(ttf, EntryPlace(ttf, j)).Ok?
    ensures Field(DirectoryFrom(ttf, n, i, t).value, name) == TableSpec(ttf, EntryPlace(ttf, j)).value
    decreases n - i
  {
    if i == j {
      EntryWins(ttf, n, i, t, name);
    } else {
      match NameOf(EntryTag(ttf, i))
      case None =>
        LastEntryWins(ttf, n, i + 1, t, j, name);
      case Some(here) =>
        var s := TableSpec(ttf, EntryPlace(ttf, i)).value;
        LastEntryWins(ttf, n, i + 1, WithTable(t, here, s), j, name);
    }
  }

  /** The entry at i sets the table it names, and later entries that name other tables keep it. */
  lemma EntryWins(ttf: seq<byte>, n: nat, i: nat, t: Tables, name: TableName)
    requires i < n && 16 * n + 12 <= |ttf|
    requires NameOf(EntryTag(ttf, i)) == Some(name)
    requires forall k :: i < k < n ==> NameOf(EntryTag(ttf, k)) != Some(name)
    requires DirectoryFrom(ttf, n, i, t).Ok?
    ensures TableSpec(ttf, EntryPlace(ttf, i)).Ok?
    ensures Field(DirectoryFrom(ttf, n, i, t).value, name) == TableSpec(ttf, EntryPlace(ttf, i)).value
  {
    var e := TableSpec(ttf, EntryPlace(ttf, i));
    if e.Fail? {
      assert false;
    }
    var s := e.value;
    var t' := WithTable(t, name, s);
    assert DirectoryFrom(ttf, n, i, t) == DirectoryFrom(ttf, n, i + 1, t');
    KeepsField(ttf, n, i + 1, t', name);
  }

  /** Entries that do not name a table leave that table as it is. */
  lemma {:induction false} KeepsField(ttf: seq<byte>, n: nat, i: nat, t: Tables, name: TableName)
    requires i <= n && 16 * n + 12 <= |ttf|
    requires forall k :: i <= k < n ==> NameOf(EntryTag(ttf, k)) != Some(name)
    requires DirectoryFrom(ttf, n, i, t).Ok?
    ensures Field(DirectoryFrom(ttf, n, i, t).value, name) == Field(t, name)
    decreases n - i
  {
    if i < n {
      match NameOf(EntryTag(ttf, i))
      case None =>
        KeepsField(ttf, n, i + 1, t, name);
      case Some(here) =>
        assert TableSpec(ttf, EntryPlace(ttf, i)).Ok?;
        var s := TableSpec(ttf, EntryPlace(ttf, i)).value;
        assert DirectoryFrom(ttf, n, i, t) == DirectoryFrom(ttf, n, i + 1, WithTable(t, here, s));
        KeepsField(ttf, n, i + 1, WithTable(t, here, s), name);
    }
  }

  // ---------------------------------------------------------------------------
  // The font
  // ---------------------------------------------------------------------------

  const LocaFormatUnknown: int := 0
  const LocaFormatShort: int := 1
  const LocaFormatLong: int := 2

  /** A parsed cmap segment: the characters start..end map through delta or through the glyph index array. */
  datatype Segment = Segment(start: uint16, end: uint16, delta: uint16, offset: uint16)

  datatype Bounds = Bounds(xMin: int16, yMin: int16, xMax: int16, yMax: int16)

  /** Go's HMetric: the horizontal metrics of one glyph. */
  datatype HorizontalMetric = HorizontalMetric(advanceWidth: uint16, leftSideBearing: int16)

  // The encodings parseCmap accepts: (platform ID << 16) | platform-specific ID.
  const UnicodeEncoding: int := 0x0000_0003    // Unicode, Unicode 2.0
  const MicrosoftEncoding: int := 0x0003_0001  // Microsoft, UCS-2

  // ---------------------------------------------------------------------------
  // cmap
  // ---------------------------------------------------------------------------

  /**
   * The subtable offset parseCmap settles on after looking at encoding
   * records i..n-1, having picked `picked` before them: the first Unicode
   * record wins outright; otherwise the last Microsoft record does.
   */
  function EncodingFrom(cmap: seq<byte>, n: nat, i: nat, picked: Option<int>): Option<int>
    requires i <= n && 8 * n + 4 <= |cmap|
    decreases n - i
  {
    if i == n then picked
    else
      var pidPsid := BE32(cmap, 4 + 8 * i);
      var o := BE32(cmap, 8 + 8 * i);
      if pidPsid == UnicodeEncoding then Some(o)
      else if pidPsid == MicrosoftEncoding then EncodingFrom(cmap, n, i + 1, Some(o))
      else EncodingFrom(cmap, n, i + 1, picked)
  }

  /** A Unicode record is preferred over every Microsoft record, before or after it. */
  lemma {:induction false} UnicodePreferred(cmap: seq<byte>, n: nat, i: nat, picked: Option<int>, j: nat)
    requires i <= j < n && 8 * n + 4 <= |cmap|
    requires BE32(cmap, 4 + 8 * j) == UnicodeEncoding
    requires forall k :: i <= k < j ==> BE32(cmap, 4 + 8 * k) != UnicodeEncoding
    ensures EncodingFrom(cmap, n, i, picked) == Some(BE32(cmap, 8 + 8 * j))
    decreases n - i
  {
    if i < j {
      var pidPsid := BE32(cmap, 4 + 8 * i);
      var next := if pidPsid == MicrosoftEncoding then Some(BE32(cmap, 8 + 8 * i)) else picked;
      UnicodePreferred(cmap, n, i + 1, next, j);
    }
  }

  /** Without a Unicode record, the last Microsoft record is used. */
  lemma {:induction false} MicrosoftFallback(cmap: seq<byte>, n: nat, i: nat, picked: Option<int>, j: nat)
    requires i <= j < n && 8 * n + 4 <= |cmap|
    requires BE32(cmap, 4 + 8 * j) == MicrosoftEncoding
    requires forall k :: i <= k < n ==> BE32(cmap, 4 + 8 * k) != UnicodeEncoding
    requires forall k :: j < k < n ==> BE32(cmap, 4 + 8 * k) != MicrosoftEncoding
    ensures EncodingFrom(cmap, n, i, picked) == Some(BE32(cmap, 8 + 8 * j))
    decreases n - i
  {
    var pidPsid := BE32(cmap, 4 + 8 * i);
    var next := if pidPsid == MicrosoftEncoding then Some(BE32(cmap, 8 + 8 * i)) else picked;
    if i < j {
      MicrosoftFallback(cmap, n, i + 1, next, j);
    } else {
      NoEncodingKeepsPick(cmap, n, i + 1, next);
    }
  }

  /** Records of neither encoding leave the pick as it was. */
  lemma {:induction false} NoEncodingKeepsPick(cmap: seq<byte>, n: nat, i: nat, picked: Option<int>)
    requires i <= n && 8 * n + 4 <= |cmap|
    requires forall k :: i <= k < n ==> BE32(cmap, 4 + 8 * k) != UnicodeEncoding && BE32(cmap, 4 + 8 * k) != MicrosoftEncoding
    ensures EncodingFrom(cmap, n, i, picked) == picked
    decreases n - i
  {
    if i < n {
      NoEncodingKeepsPick(cmap, n, i + 1, picked);
    }
  }

  /** What parseCmap keeps: the segments and the bytes after them (the glyph index array). */
  datatype CmapInfo = CmapInfo(cm: seq<Segment>, indexes: seq<byte>)

  /**
   * A format-4 subtable s (cmap from the chosen offset on): format 4,
   * language 0, an even segCountX2, then the end codes, a pad, the start
   * codes, the deltas and the range offsets, segCount of each. The data
   * running out is a Go panic; the checks happen in the order the bytes are
   * read.
   */
  function SubtableSpec(s: seq<byte>): Outcome<CmapInfo>
  {
    if |s| < 2 then Fail(OutOfRange)
    else if BE16(s, 0) != 4 then Fail(UnsupportedError("cmap format"))
    else if |s| < 6 then Fail(OutOfRange)
    else if BE16(s, 4) != 0 then Fail(UnsupportedError("language"))
    else if |s| < 8 then Fail(OutOfRange)
    else if BE16(s, 6) % 2 == 1 then Fail(FormatError("bad segCountX2"))
    else
      var n := BE16(s, 6) / 2;
      if |s| < 16 + 8 * n then Fail(OutOfRange)
      else Ok(CmapInfo(SegmentsOf(s, n), s[16 + 8 * n..]))
  }

  /** The n segments of a format-4 subtable, from its four parallel arrays. */
  function SegmentsOf(s: seq<byte>, n: nat): (r: seq<Segment>)
    requires 16 + 8 * n <= |s|
    ensures |r| == n
    ensures forall k :: 0 <= k < n ==> r[k].end == BE16(s, 14 + 2 * k) && r[k].start == BE16(s, 16 + 2 * n + 2 * k)
    ensures forall k :: 0 <= k < n ==> r[k].delta == BE16(s, 16 + 4 * n + 2 * k) && r[k].offset == BE16(s, 16 + 6 * n + 2 * k)
  {
    seq(n, k requires 0 <= k < n =>
      Segment(BE16(s, 16 + 2 * n + 2 * k), BE16(s, 14 + 2 * k), BE16(s, 16 + 4 * n + 2 * k), BE16(s, 16 + 6 * n + 2 * k)))
  }

  /** parseCmap as a whole: the encoding records, the chosen offset, the subtable. */
  function CmapSpec(cmap: seq<byte>): Outcome<CmapInfo>
  {
    if |cmap| < 4 then Fail(FormatError("cmap too short"))
    else
      var n := BE16(cmap, 2);
      if |cmap| < 8 * n + 4 then Fail(FormatError("cmap too short"))
      else match EncodingFrom(cmap, n, 0, None)
        case None => Fail(UnsupportedError("cmap encoding"))
        case Some(offset) =>
          if offset <= 0 || offset > |cmap| then Fail(FormatError("bad cmap offset"))
          else SubtableSpec(cmap[offset..])
  }

  /** The offset of the preferred encoding record, by the loop of parseCmap. */
  method ChooseEncoding(cmap: seq<byte>, n: nat) returns (offset: int, found: bool)
    requires 8 * n + 4 <= |cmap|
    ensures found <==> EncodingFrom(cmap, n, 0, None).Some?
    ensures found ==> offset == EncodingFrom(cmap, n, 0, None).value
  {
    var d := new Data(cmap[4..]);
    offset, found := 0, false;
    var i := 0;
    while i < n
      invariant 0 <= i <= n
      invariant d.rest == cmap[4 + 8 * i..]
      invariant EncodingFrom(cmap, n, 0, None) == EncodingFrom(cmap, n, i, if found then Some(offset) else None)
    {
      var pidPsid := d.U32();
      var o := d.U32();
      if pidPsid == UnicodeEncoding {
        offset, found := o, true;
        break;
      } else if pidPsid == MicrosoftEncoding {
        offset, found := o, true;
      }
      i := i + 1;
    }
  }

  /** The encoding records and the chosen subtable, read as parseCmap reads them. */
  method ReadCmap(cmap: seq<byte>) returns (r: Outcome<CmapInfo>)
    ensures r == CmapSpec(cmap)
  {
    if |cmap| < 4 {
      return Fail(FormatError("cmap too short"));
    }
    var d := new Data(cmap[2..]);
    var nsubtab: nat := d.U16();
    if |cmap| < 8 * nsubtab + 4 {
      return Fail(FormatError("cmap too short"));
    }
    var offset, found := ChooseEncoding(cmap, nsubtab);
    if !found {
      return Fail(UnsupportedError("cmap encoding"));
    }
    if offset <= 0 || offset > |cmap| {
      return Fail(FormatError("bad cmap offset"));
    }
    r := ReadSubtable(cmap[offset..]);
  }

  /** n consecutive big-endian uint16 values. */
  method ReadU16s(d: Data, n: nat) returns (xs: seq<uint16>)
    requires 2 * n <= |d.rest|
    modifies d
    ensures |xs| == n
    ensures forall k :: 0 <= k < n ==> xs[k] == BE16(old(d.rest), 2 * k)
    ensures d.rest == old(d.rest)[2 * n..]
  {
    xs := [];
    ghost var s := d.rest;
    while |xs| < n
      invariant |xs| <= n
      invariant d.rest == s[2 * |xs|..]
      invariant forall k :: 0 <= k < |xs| ==> xs[k] == BE16(s, 2 * k)
    {
      var x := d.U16();
      xs := xs + [x];
    }
  }

  /** Values read from s[a..] are the values at a, a+2, ... of s. */
  lemma Shifted(s: seq<byte>, a: nat, xs: seq<uint16>)
    requires a + 2 * |xs| <= |s|
    requires forall k :: 0 <= k < |xs| ==> xs[k] == BE16(s[a..], 2 * k)
    ensures forall k :: 0 <= k < |xs| ==> xs[k] == BE16(s, a + 2 * k)
  {
    forall k | 0 <= k < |xs|
      ensures xs[k] == BE16(s, a + 2 * k)
    {
      assert s[a..][2 * k] == s[a + 2 * k] && s[a..][2 * k + 1] == s[a + 2 * k + 1];
    }
  }

  /** The four arrays as read, zipped, are the segments of the subtable. */
  lemma SegmentsRead(s: seq<byte>, n: nat, starts: seq<uint16>, ends: seq<uint16>, deltas: seq<uint16>,
                     offsets: seq<uint16>, cm: seq<Segment>)
    requires 16 + 8 * n <= |s|
    requires |starts| == |ends| == |deltas| == |offsets| == |cm| == n
    requires forall k :: 0 <= k < n ==> ends[k] == BE16(s, 14 + 2 * k)
    requires forall k :: 0 <= k < n ==> starts[k] == BE16(s, 16 + 2 * n + 2 * k)
    requires forall k :: 0 <= k < n ==> deltas[k] == BE16(s, 16 + 4 * n + 2 * k)
    requires forall k :: 0 <= k < n ==> offsets[k] == BE16(s, 16 + 6 * n + 2 * k)
    requires forall k :: 0 <= k < n ==> cm[k] == Segment(starts[k], ends[k], deltas[k], offsets[k])
    ensures cm == SegmentsOf(s, n)
  {
    var want := SegmentsOf(s, n);
    forall k | 0 <= k < n
      ensures cm[k] == want[k]
    {
    }
  }

  /** The four segment arrays that follow the segCountX2 field of subtable s. */
  method ReadSegments(d: Data, n: nat, ghost s: seq<byte>) returns (cm: seq<Segment>)
    requires 16 + 8 * n <= |s| && d.rest == s[8..]
    modifies d
    ensures cm == SegmentsOf(s, n)
    ensures d.rest == s[16 + 8 * n..]
  {
    d.Skip(6);
    assert d.rest == s[14..];
    var ends := ReadU16sAt(d, n, s, 14);
    d.Skip(2);
    assert d.rest == s[16 + 2 * n..];
    var starts := ReadU16sAt(d, n, s, 16 + 2 * n);
    var deltas := ReadU16sAt(d, n, s, 16 + 4 * n);
    var offsets := ReadU16sAt(d, n, s, 16 + 6 * n);
    cm := seq(n, k requires 0 <= k < n => Segment(starts[k], ends[k], deltas[k], offsets[k]));
    SegmentsRead(s, n, starts, ends, deltas, offsets, cm);
  }

  /** n big-endian 16-bit values read from offset a of s, where the cursor stands. */
  method ReadU16sAt(d: Data, n: nat, ghost s: seq<byte>, ghost a: nat) returns (xs: seq<uint16>)
    requires a + 2 * n <= |s| && d.rest == s[a..]
    modifies d
    ensures |xs| == n
    ensures forall k :: 0 <= k < n ==> xs[k] == BE16(s, a + 2 * k)
    ensures d.rest == s[a + 2 * n..]
  {
    xs := ReadU16s(d, n);
    Shifted(s, a, xs);
  }

  /** The subtable at the chosen offset, read as parseCmap reads it. */
  method ReadSubtable(s: seq<byte>) returns (r: Outcome<CmapInfo>)
    ensures r == SubtableSpec(s)
  {
    var d := new Data(s);
    if |d.rest| < 2 { return Fail(OutOfRange); }
    var cmapFormat := d.U16();
    if cmapFormat != 4 {
      return Fail(UnsupportedError("cmap format"));
    }
    if |d.rest| < 2 { return Fail(OutOfRange); }
    d.Skip(2);
    if |d.rest| < 2 { return Fail(OutOfRange); }
    var language := d.U16();
    assert language == BE16(s, 4);
    if language != 0 {
      return Fail(UnsupportedError("language"));
    }
    if |d.rest| < 2 { return Fail(OutOfRange); }
    var segCountX2 := d.U16();
    assert segCountX2 == BE16(s, 6) && d.rest == s[8..];
    if segCountX2 % 2 == 1 {
      return Fail(FormatError("bad segCountX2"));
    }
    var n: nat := segCountX2 / 2;
    if |d.rest| < 8 + 8 * n { return Fail(OutOfRange); }
    var cm := ReadSegments(d, n, s);
    r := Ok(CmapInfo(cm, d.rest));
  }

  // ---------------------------------------------------------------------------
  // Lookups
  // ---------------------------------------------------------------------------

  predicate InSegment(s: Segment, c: int)
  {
    s.start <= c <= s.end
  }

  /**
   * The glyph of character c by segment i: c + delta (mod 2^16) when the
   * range offset is 0, otherwise the entry of the glyph index array that
   * the range offset designates, counted from the range-offset field itself.
   */
  function SegmentGlyph(cm: seq<Segment>, indexes: seq<byte>, c: uint16, i: nat): Outcome<uint16>
    requires i < |cm| && InSegment(cm[i], c)
  {
    if cm[i].offset == 0 then Ok((c + cm[i].delta) % 0x1_0000)
    else
      var offset := cm[i].offset + 2 * (i - |cm| + (c - cm[i].start));
      if offset < 0 || offset + 2 > |indexes| then Fail(OutOfRange)
      else Ok(BE16(indexes, offset))
  }

  /** The glyph of character c by the first of segments i.. that holds it, and glyph 0 if none does. */
  function IndexFrom(cm: seq<Segment>, indexes: seq<byte>, c: uint16, i: nat): Outcome<uint16>
    decreases |cm| - i
  {
    if i >= |cm| then Ok(0)
    else if InSegment(cm[i], c) then SegmentGlyph(cm, indexes, c, i)
    else IndexFrom(cm, indexes, c, i + 1)
  }

  /** Only the first segment holding c is consulted; a delta-mapped character wraps modulo 2^16. */
  lemma {:induction false} IndexFirstSegment(cm: seq<Segment>, indexes: seq<byte>, c: uint16, i: nat, j: nat)
    requires i <= j < |cm| && InSegment(cm[j], c)
    requires forall k :: i <= k < j ==> !InSegment(cm[k], c)
    ensures IndexFrom(cm, indexes, c, i) == SegmentGlyph(cm, indexes, c, j)
    ensures cm[j].offset == 0 ==> IndexFrom(cm, indexes, c, i) == Ok((c + cm[j].delta) % 0x1_0000)
    decreases j - i
  {
    if i < j {
      IndexFirstSegment(cm, indexes, c, i + 1, j);
    }
  }

  /** A character no segment holds maps to glyph 0. */
  lemma {:induction false} IndexNoSegment(cm: seq<Segment>, indexes: seq<byte>, c: uint16, i: nat)
    requires forall k :: i <= k < |cm| ==> !InSegment(cm[k], c)
    ensures IndexFrom(cm, indexes, c, i) == Ok(0)
    decreases |cm| - i
  {
    if i < |cm| {
      IndexNoSegment(cm, indexes, c, i + 1);
    }
  }

  /**
   * The metrics of glyph j: none past nGlyph; the full record j below
   * nHMetric; past it, the last record's advance and the bearing from the
   * bearing-only array that follows the records.
   */
  function HMetricSpec(hmtx: seq<byte>, nGlyph: int, nHMetric: int, j: nat): Outcome<HorizontalMetric>
  {
    if j >= nGlyph then Ok(HorizontalMetric(0, 0))
    else if j >= nHMetric then
      var p := 4 * (nHMetric - 1);
      var q := 4 * nHMetric + 2 * (j - nHMetric);
      if p < 0 || p + 2 > |hmtx| || q + 2 > |hmtx| then Fail(OutOfRange)
      else Ok(HorizontalMetric(BE16(hmtx, p), Int16(BE16(hmtx, q))))
    else if 4 * j + 4 > |hmtx| then Fail(OutOfRange)
    else Ok(HorizontalMetric(BE16(hmtx, 4 * j), Int16(BE16(hmtx, 4 * j + 2))))
  }

  /** With the hmtx length Parse checks and at least one full record, every glyph's metrics are in bounds. */
  lemma HMetricInBounds(hmtx: seq<byte>, nGlyph: nat, nHMetric: nat, j: nat)
    requires 4 * nHMetric + 2 * (nGlyph - nHMetric) == |hmtx|
    requires nHMetric >= 1
    ensures HMetricSpec(hmtx, nGlyph, nHMetric, j).Ok?
    ensures j < nHMetric && j < nGlyph ==>
      HMetricSpec(hmtx, nGlyph, nHMetric, j).value == HorizontalMetric(BE16(hmtx, 4 * j), Int16(BE16(hmtx, 4 * j + 2)))
  {
  }

  /** With no full metric record, the last record's offset 4 * (nHMetric - 1) is negative: every glyph's lookup is out of range. */
  lemma HMetricWithoutRecords(hmtx: seq<byte>, nGlyph: nat, j: nat)
    requires 2 * nGlyph == |hmtx|
    requires j < nGlyph
    ensures HMetricSpec(hmtx, nGlyph, 0, j) == Fail(OutOfRange)
  {
  }

  /** The key and value of kerning pair i: (left << 16 | right) and a signed adjustment. */
  function KernKey(kern: seq<byte>, i: nat): uint32
    requires 18 + 6 * i + 4 <= |kern|
  {
    BE32(kern, 18 + 6 * i)
  }

  function KernValue(kern: seq<byte>, i: nat): int16
    requires 18 + 6 * i + 6 <= |kern|
  {
    Int16(BE16(kern, 22 + 6 * i))
  }

  /** The n pairs are present and strictly sorted by key, as the kern format requires. */
  predicate KernSorted(kern: seq<byte>, n: nat)
  {
    18 + 6 * n <= |kern| &&
    forall a, b :: 0 <= a < b < n ==> KernKey(kern, a) < KernKey(kern, b)
  }

  /** In a sorted table a key occurs at most once. */
  lemma KeyUnique(kern: seq<byte>, n: nat, i: nat)
    requires KernSorted(kern, n) && i < n
    ensures forall k :: 0 <= k < n && KernKey(kern, k) == KernKey(kern, i) ==> k == i
  {
  }

  /** In a sorted table every key up to one below g is below g. */
  lemma SortedBelow(kern: seq<byte>, n: nat, i: nat, g: int)
    requires KernSorted(kern, n) && i < n && KernKey(kern, i) < g
    ensures forall k :: 0 <= k <= i ==> KernKey(kern, k) < g
  {
  }

  /** In a sorted table every key from one above g on is above g. */
  lemma SortedAbove(kern: seq<byte>, n: nat, i: nat, g: int)
    requires KernSorted(kern, n) && i < n && KernKey(kern, i) > g
    ensures forall k :: i <= k < n ==> KernKey(kern, k) > g
  {
  }

  // ---------------------------------------------------------------------------
  // head
  // ---------------------------------------------------------------------------

  /** The fields parseHead reads from a 54-byte head table: unitsPerEm, the bounds and indexToLocFormat. */
  method DecodeHead(head: seq<byte>) returns (upe: uint16, b: Bounds, format: uint16)
    requires |head| == 54
    ensures upe == BE16(head, 18)
    ensures b == Bounds(Int16(BE16(head, 36)), Int16(BE16(head, 38)), Int16(BE16(head, 40)), Int16(BE16(head, 42)))
    ensures format == BE16(head, 50)
  {
    var d := new Data(head[18..]);
    upe := d.U16();
    d.Skip(16);
    assert d.rest == head[36..];
    var xMin := d.U16();
    var yMin := d.U16();
    var xMax := d.U16();
    var yMax := d.U16();
    b := Bounds(Int16(xMin), Int16(yMin), Int16(xMax), Int16(yMax));
    assert d.rest == head[44..];
    d.Skip(6);
    format := d.U16();
  }

  /** The header fields of an old-format kern table: version, nTables, the subtable's length and coverage, and nPairs. */
  method KernHeader(kern: seq<byte>) returns (version: uint16, nTables: uint16, length: int, coverage: uint16, nPairs: uint16)
    requires |kern| >= 18
    ensures version == BE16(kern, 0) && nTables == BE16(kern, 2) && length == BE16(kern, 6)
    ensures coverage == BE16(kern, 8) && nPairs == BE16(kern, 10)
  {
    var d := new Data(kern);
    version := d.U16();
    nTables := d.U16();
    d.Skip(2);
    length := d.U16();
    coverage := d.U16();
    nPairs := d.U16();
  }

  class Font {
    var cmap: seq<byte>
    var glyf: seq<byte>
    var head: seq<byte>
    var hhea: seq<byte>
    var hmtx: seq<byte>
    var kern: seq<byte>
    var loca: seq<byte>
    var maxp: seq<byte>
    var cmapIndexes: seq<byte>
    var cm: seq<Segment>
    var locaOffsetFormat: int
    var nGlyph: nat
    var nHMetric: nat
    var nKern: nat
    var unitsPerEm: nat
    var bounds: Bounds

    /** A Font with no tables and zero metrics, as new(Font) makes it. */
    constructor ()
      ensures TablesOf() == NoTables && cmapIndexes == [] && cm == []
      ensures locaOffsetFormat == LocaFormatUnknown
      ensures nGlyph == 0 && nHMetric == 0 && nKern == 0 && unitsPerEm == 0
      ensures bounds == Bounds(0, 0, 0, 0)
    {
      cmap, glyf, head, hhea, hmtx, kern, loca, maxp := [], [], [], [], [], [], [], [];
      cmapIndexes, cm := [], [];
      locaOffsetFormat := LocaFormatUnknown;
      nGlyph, nHMetric, nKern, unitsPerEm := 0, 0, 0, 0;
      bounds := Bounds(0, 0, 0, 0);
    }

    function TablesOf(): Tables
      reads this
    {
      Tables(cmap, glyf, head, hhea, hmtx, kern, loca, maxp)
    }

    /** Installs the slice of one table, as each case of Parse's switch does. */
    method SetTable(name: TableName, t: seq<byte>)
      modifies this
      ensures TablesOf() == WithTable(old(TablesOf()), name, t)
      ensures cmapIndexes == old(cmapIndexes) && cm == old(cm) && locaOffsetFormat == old(locaOffsetFormat)
      ensures nGlyph == old(nGlyph) && nHMetric == old(nHMetric) && nKern == old(nKern)
      ensures unitsPerEm == old(unitsPerEm) && bounds == old(bounds)
    {
      match name
      case Cmap => cmap := t;
      case Glyf => glyf := t;
      case Head => head := t;
      case Hhea => hhea := t;
      case Hmtx => hmtx := t;
      case Kern => kern := t;
      case Loca => loca := t;
      case Maxp => maxp := t;
    }

    /**
     * What Parse establishes about a font it returns: the fixed table
     * lengths, a known loca format, an hmtx table of exactly the size the
     * glyph and metric counts give, and a kern header consistent with nKern.
     */
    predicate Parsed()
      reads this
    {
      |head| == 54 && (locaOffsetFormat == LocaFormatShort || locaOffsetFormat == LocaFormatLong) &&
      |maxp| == 32 && nGlyph == BE16(maxp, 4) &&
      |hhea| == 36 && nHMetric == BE16(hhea, 34) &&
      4 * nHMetric + 2 * (nGlyph - nHMetric) == |hmtx| &&
      (|kern| == 0 ==> nKern == 0) &&
      (|kern| != 0 ==> |kern| >= 18 && 6 * nKern == BE16(kern, 6) - 14)
    }

    /** parseHead: the head table is 54 bytes; it gives unitsPerEm, the bounds and the loca format. */
    method ParseHead() returns (err: Option<Error>)
      modifies this
      ensures TablesOf() == old(TablesOf()) && cm == old(cm) && cmapIndexes == old(cmapIndexes)
      ensures nGlyph == old(nGlyph) && nHMetric == old(nHMetric) && nKern == old(nKern)
      ensures |head| != 54 ==> err == Some(FormatError("bad head length"))
      ensures |head| == 54 ==>
        unitsPerEm == BE16(head, 18) &&
        bounds == Bounds(Int16(BE16(head, 36)), Int16(BE16(head, 38)), Int16(BE16(head, 40)), Int16(BE16(head, 42))) &&
        (BE16(head, 50) == 0 ==> err == None && locaOffsetFormat == LocaFormatShort) &&
        (BE16(head, 50) == 1 ==> err == None && locaOffsetFormat == LocaFormatLong) &&
        (BE16(head, 50) > 1 ==> err == Some(FormatError("bad indexToLocFormat")))
    {
      if |head| != 54 {
        return Some(FormatError("bad head length"));
      }
      var upe, b, i := DecodeHead(head);
      unitsPerEm, bounds := upe, b;
      if i == 0 {
        locaOffsetFormat := LocaFormatShort;
      } else if i == 1 {
        locaOffsetFormat := LocaFormatLong;
      } else {
        return Some(FormatError("bad indexToLocFormat"));
      }
      return None;
    }

    /** parseMaxp: the maxp table is 32 bytes; it gives the number of glyphs. */
    method ParseMaxp() returns (err: Option<Error>)
      modifies this
      ensures TablesOf() == old(TablesOf()) && cm == old(cm) && cmapIndexes == old(cmapIndexes)
      ensures locaOffsetFormat == old(locaOffsetFormat) && unitsPerEm == old(unitsPerEm) && bounds == old(bounds)
      ensures nHMetric == old(nHMetric) && nKern == old(nKern)
      ensures |maxp| != 32 ==> err == Some(FormatError("bad maxp length")) && nGlyph == old(nGlyph)
      ensures |maxp| == 32 ==> err == None && nGlyph == BE16(maxp, 4)
    {
      if |maxp| != 32 {
        return Some(FormatError("bad maxp length"));
      }
      var d := new Data(maxp[4..]);
      var n := d.U16();
      nGlyph := n;
      return None;
    }

    /** parseHhea: the hhea table is 36 bytes, and hmtx holds nHMetric full metrics plus a bearing per remaining glyph. */
    method ParseHhea() returns (err: Option<Error>)
      modifies this
      ensures TablesOf() == old(TablesOf()) && cm == old(cm) && cmapIndexes == old(cmapIndexes)
      ensures locaOffsetFormat == old(locaOffsetFormat) && unitsPerEm == old(unitsPerEm) && bounds == old(bounds)
      ensures nGlyph == old(nGlyph) && nKern == old(nKern)
      ensures |hhea| != 36 ==> err == Some(FormatError("bad hhea length"))
      ensures |hhea| == 36 ==> nHMetric == BE16(hhea, 34)
      ensures |hhea| == 36 ==> (err == None <==> 4 * nHMetric + 2 * (nGlyph - nHMetric) == |hmtx|)
      ensures |hhea| == 36 && err != None ==> err == Some(FormatError("bad hmtx length"))
    {
      if |hhea| != 36 {
        return Some(FormatError("bad hhea length"));
      }
      var d := new Data(hhea[34..]);
      var n := d.U16();
      nHMetric := n;
      if 4 * nHMetric + 2 * (nGlyph - nHMetric) != |hmtx| {
        return Some(FormatError("bad hmtx length"));
      }
      return None;
    }

    /**
     * parseKern: an absent kern table needs nKern == 0; otherwise only the
     * old-format header with version 0, one subtable and horizontal coverage
     * is accepted, and its length must hold 6 bytes per kerning pair.
     */
    method ParseKern() returns (err: Option<Error>)
      modifies this
      ensures TablesOf() == old(TablesOf()) && cm == old(cm) && cmapIndexes == old(cmapIndexes)
      ensures locaOffsetFormat == old(locaOffsetFormat) && unitsPerEm == old(unitsPerEm) && bounds == old(bounds)
      ensures nGlyph == old(nGlyph) && nHMetric == old(nHMetric)
      ensures |kern| == 0 ==> nKern == old(nKern) && (err == None <==> nKern == 0)
      ensures 0 < |kern| < 18 ==> err == Some(FormatError("kern data too short"))
      ensures |kern| >= 18 ==>
        (BE16(kern, 0) != 0 ==> err == Some(UnsupportedError("kern version"))) &&
        (BE16(kern, 0) == 0 && BE16(kern, 2) != 1 ==> err == Some(UnsupportedError("kern nTables"))) &&
        (BE16(kern, 0) == 0 && BE16(kern, 2) == 1 && BE16(kern, 8) != 1 ==>
           err == Some(UnsupportedError("kern coverage"))) &&
        (BE16(kern, 0) == 0 && BE16(kern, 2) == 1 && BE16(kern, 8) == 1 ==>
           nKern == BE16(kern, 10) &&
           (err == None <==> 6 * nKern == BE16(kern, 6) - 14) &&
           (err != None ==> err == Some(FormatError("bad kern table length"))))
    {
      if |kern| == 0 {
        if nKern != 0 {
          return Some(FormatError("bad kern table length"));
        }
        return None;
      }
      if |kern| < 18 {
        return Some(FormatError("kern data too short"));
      }
      var version, n, length, coverage, k := KernHeader(kern);
      if version != 0 {
        return Some(UnsupportedError("kern version"));
      }
      if n != 1 {
        return Some(UnsupportedError("kern nTables"));
      }
      if coverage != 1 {
        return Some(UnsupportedError("kern coverage"));
      }
      nKern := k;
      if 6 * nKern != length - 14 {
        return Some(FormatError("bad kern table length"));
      }
      return None;
    }
  
    /** The loop of Parse over the n directory entries, installing the table of each known tag. */
    method ReadDirectory(ttf: seq<byte>, n: nat) returns (err: Option<Error>)
      requires TablesOf() == NoTables && 16 * n + 12 <= |ttf|
      modifies this
      ensures cm == old(cm) && cmapIndexes == old(cmapIndexes) && nKern == old(nKern)
      ensures DirectoryFrom(ttf, n, 0, NoTables).Ok? ==> err == None && TablesOf() == DirectoryFrom(ttf, n, 0, NoTables).value
      ensures DirectoryFrom(ttf, n, 0, NoTables).Fail? ==> err == Some(DirectoryFrom(ttf, n, 0, NoTables).err)
    {
      var i := 0;
      while i < n
        invariant 0 <= i <= n
        invariant DirectoryFrom(ttf, n, 0, NoTables) == DirectoryFrom(ttf, n, i, TablesOf())
        invariant cm == old(cm) && cmapIndexes == old(cmapIndexes) && nKern == old(nKern)
      {
        match NameOf(EntryTag(ttf, i)) {
          case None =>
          case Some(name) =>
            var r := ReadTable(ttf, EntryPlace(ttf, i));
            if r.Fail? {
              return Some(r.err);
            }
            SetTable(name, r.value);
        }
        i := i + 1;
      }
      return None;
    }

    /** The checks at the end of Parse, in order: head, maxp, cmap, kern, hhea. */
    method ParseTables() returns (err: Option<Error>)
      requires cm == [] && cmapIndexes == [] && nKern == 0
      modifies this
      ensures TablesOf() == old(TablesOf())
      ensures err == None <==> Accepted(TablesOf())
      ensures err == None ==> Parsed() && CmapSpec(cmap) == Ok(CmapInfo(cm, cmapIndexes)) && unitsPerEm == BE16(head, 18)
    {
      err := ParseHead();
      if err != None {
        return;
      }
      err := ParseMaxp();
      if err != None {
        return;
      }
      err := ParseCmap();
      if err != None {
        return;
      }
      err := ParseKern();
      if err != None {
        return;
      }
      err := ParseHhea();
    }

    /** parseCmap: the preferred format-4 subtable's segments and glyph index array. */
    method ParseCmap() returns (err: Option<Error>)
      modifies this
      ensures TablesOf() == old(TablesOf())
      ensures locaOffsetFormat == old(locaOffsetFormat) && unitsPerEm == old(unitsPerEm) && bounds == old(bounds)
      ensures nGlyph == old(nGlyph) && nHMetric == old(nHMetric) && nKern == old(nKern)
      ensures CmapSpec(cmap).Fail? ==> err == Some(CmapSpec(cmap).err)
      ensures CmapSpec(cmap).Ok? ==> err == None && CmapInfo(cm, cmapIndexes) == CmapSpec(cmap).value
    {
      var r := ReadCmap(cmap);
      match r
      case Fail(e) =>
        return Some(e);
      case Ok(info) =>
        cm, cmapIndexes := info.cm, info.indexes;
        return None;
    }

    /** Index: the glyph index of a rune, truncated to 16 bits, by the first segment that holds it. */
    method Index(x: int) returns (r: Outcome<uint16>)
      ensures r == IndexFrom(cm, cmapIndexes, x % 0x1_0000, 0)
    {
      var c := Uint16(x);
      var n := |cm|;
      var i := 0;
      while i < n
        invariant 0 <= i <= n
        invariant IndexFrom(cm, cmapIndexes, c, 0) == IndexFrom(cm, cmapIndexes, c, i)
      {
        if cm[i].start <= c && c <= cm[i].end {
          if cm[i].offset == 0 {
            return Ok(Uint16(c + cm[i].delta));
          }
          var offset := cm[i].offset + 2 * (i - n + (c - cm[i].start));
          if offset < 0 || offset + 2 > |cmapIndexes| {
            return Fail(OutOfRange);
          }
          var d := new Data(cmapIndexes[offset..]);
          var g := d.U16();
          return Ok(g);
        }
        i := i + 1;
      }
      return Ok(0);
    }

    /** HMetric: the advance width and left side bearing of glyph i. */
    method HMetric(i: uint16) returns (r: Outcome<HorizontalMetric>)
      ensures r == HMetricSpec(hmtx, nGlyph, nHMetric, i)
    {
      var j := i as int;
      if j >= nGlyph {
        return Ok(HorizontalMetric(0, 0));
      }
      if j >= nHMetric {
        var p := 4 * (nHMetric - 1);
        if p < 0 || p + 2 > |hmtx| {
          return Fail(OutOfRange);
        }
        var d := new Data(hmtx[p..]);
        var advance := d.U16();
        p := p + 2 * (j - nHMetric) + 4;
        if p + 2 > |hmtx| {
          return Fail(OutOfRange);
        }
        d := new Data(hmtx[p..]);
        var bearing := d.U16();
        return Ok(HorizontalMetric(advance, Int16(bearing)));
      }
      if 4 * j + 4 > |hmtx| {
        return Fail(OutOfRange);
      }
      var d := new Data(hmtx[4 * j..]);
      var advance := d.U16();
      var bearing := d.U16();
      return Ok(HorizontalMetric(advance, Int16(bearing)));
    }

    /**
     * Kerning: a binary search of the kerning pairs for the key i0<<16 | i1.
     * A table whose pairs are sorted and present gives the stored value of
     * the pair, or 0 for a pair it does not list; a table shorter than its
     * pair count says is read out of bounds.
     */
    method Kerning(i0: uint16, i1: uint16) returns (r: Outcome<int16>)
      ensures nKern == 0 ==> r == Ok(0)
      ensures r.Fail? ==> r == Fail(OutOfRange) && |kern| < 18 + 6 * nKern
      ensures r.Ok? && r.value != 0 ==>
        exists k :: 0 <= k < nKern && 18 + 6 * k + 6 <= |kern| &&
          KernKey(kern, k) == i0 * 0x1_0000 + i1 && KernValue(kern, k) == r.value
      ensures KernSorted(kern, nKern) ==> r.Ok?
      ensures KernSorted(kern, nKern) ==>
        forall k :: 0 <= k < nKern && KernKey(kern, k) == i0 * 0x1_0000 + i1 ==> r.value == KernValue(kern, k)
      ensures KernSorted(kern, nKern) && (forall k :: 0 <= k < nKern ==> KernKey(kern, k) != i0 * 0x1_0000 + i1) ==>
        r.value == 0
    {
      if nKern == 0 {
        return Ok(0);
      }
      var g := i0 * 0x1_0000 + i1;
      var lo, hi := 0, nKern;
      while lo < hi
        invariant 0 <= lo <= hi <= nKern
        invariant KernSorted(kern, nKern) ==> forall k :: 0 <= k < lo ==> KernKey(kern, k) < g
        invariant KernSorted(kern, nKern) ==> forall k :: hi <= k < nKern ==> KernKey(kern, k) > g
      {
        var i := (lo + hi) / 2;
        if 18 + 6 * i + 4 > |kern| {
          return Fail(OutOfRange);
        }
        var d := new Data(kern[18 + 6 * i..]);
        var ig := d.U32();
        assert ig == KernKey(kern, i);
        if ig < g {
          if KernSorted(kern, nKern) {
            SortedBelow(kern, nKern, i, g);
          }
          lo := i + 1;
        } else if ig > g {
          if KernSorted(kern, nKern) {
            SortedAbove(kern, nKern, i, g);
          }
          hi := i;
        } else {
          if 18 + 6 * i + 6 > |kern| {
            return Fail(OutOfRange);
          }
          var v := d.U16();
          assert Int16(v) == KernValue(kern, i);
          if KernSorted(kern, nKern) {
            KeyUnique(kern, nKern, i);
          }
          return Ok(Int16(v));
        }
      }
      return Ok(0);
    }
}

  // ---------------------------------------------------------------------------
  // Parse
  // ---------------------------------------------------------------------------

  /** The 12-byte header: version 1.0 and room for the directory of numTables entries. */
  predicate HeaderOk(ttf: seq<byte>)
  {
    |ttf| >= 12 && BE32(ttf, 0) == 0x0001_0000 && |ttf| >= 16 * BE16(ttf, 4) + 12
  }

  /** The tables the directory designates. */
  function DirectoryOf(ttf: seq<byte>): Outcome<Tables>
    requires HeaderOk(ttf)
  {
    DirectoryFrom(ttf, BE16(ttf, 4), 0, NoTables)
  }

  /** An empty kern table, or the old-format header with one horizontal subtable of consistent length. */
  predicate KernAccepted(kern: seq<byte>)
  {
    |kern| == 0 ||
    (|kern| >= 18 && BE16(kern, 0) == 0 && BE16(kern, 2) == 1 && BE16(kern, 8) == 1 &&
     6 * BE16(kern, 10) == BE16(kern, 6) - 14)
  }

  /** The checks of parseHead, parseMaxp, parseCmap, parseKern and parseHhea all pass. */
  predicate Accepted(t: Tables)
  {
    |t.head| == 54 && BE16(t.head, 50) <= 1 &&
    |t.maxp| == 32 &&
    CmapSpec(t.cmap).Ok? &&
    KernAccepted(t.kern) &&
    |t.hhea| == 36 &&
    4 * BE16(t.hhea, 34) + 2 * (BE16(t.maxp, 4) - BE16(t.hhea, 34)) == |t.hmtx|
  }

  /**
   * Parse: a font exactly when the header is sound, every known directory
   * entry fits in the file and the tables pass their checks; the font holds
   * the tables the directory designates and what the checks read from them.
   */
  method Parse(ttf: seq<byte>) returns (font: Font?, err: Option<Error>)
    ensures font != null <==> err == None
    ensures |ttf| < 12 ==> err == Some(FormatError("TTF data is too short"))
    ensures |ttf| >= 12 && BE32(ttf, 0) != 0x0001_0000 ==> err == Some(FormatError("bad version"))
    ensures |ttf| >= 12 && BE32(ttf, 0) == 0x0001_0000 && |ttf| < 16 * BE16(ttf, 4) + 12 ==>
      err == Some(FormatError("TTF data is too short"))
    ensures HeaderOk(ttf) && DirectoryOf(ttf).Fail? ==> err == Some(DirectoryOf(ttf).err)
    ensures err == None <==> HeaderOk(ttf) && DirectoryOf(ttf).Ok? && Accepted(DirectoryOf(ttf).value)
    ensures font != null ==>
      fresh(font) && font.Parsed() && HeaderOk(ttf) && DirectoryOf(ttf) == Ok(font.TablesOf()) &&
      CmapSpec(font.cmap) == Ok(CmapInfo(font.cm, font.cmapIndexes)) &&
      font.unitsPerEm == BE16(font.head, 18)
  {
    if |ttf| < 12 {
      return null, Some(FormatError("TTF data is too short"));
    }
    var d := new Data(ttf);
    var version := d.U32();
    if version != 0x0001_0000 {
      return null, Some(FormatError("bad version"));
    }
    var n: nat := d.U16();
    if |ttf| < 16 * n + 12 {
      return null, Some(FormatError("TTF data is too short"));
    }
    var f := new Font();
    err := f.ReadDirectory(ttf, n);
    if err != None {
      return null, err;
    }
    err := f.ParseTables();
    if err != None {
      return null, err;
    }
    return f, None;
  }
}
