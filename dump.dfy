/** One pass of t64-dump over an archive buffer (`process_data`): the header
    read, the walk over the directory and, per record, a listing row, a skip
    report, or an extracted file given as its name and its bytes. */
module Dump {
  import opened Bytes
  import opened Text
  import opened T64

  /** The two mutually exclusive modes of the command: `--list`, or
      `--extract` with the names to extract (none given: every record). */
  datatype Mode = List | Extract(names: seq<string>)

  /** What the pass does for one directory record. */
  datatype Action =
    | Listed(name: string, fileType: string, startHex: string, endHex: string)
    | Skipped(name: string)
    | Extracted(fileName: string, payload: seq<Byte>)

  /** The header, one action per record visited, and whether the walk reached
      the last directory entry; when it did not, the next record's first
      out-of-range index raised IndexError after the actions already taken. */
  datatype Pass = Pass(header: Header, actions: seq<Action>, complete: bool)

  /** The destination directory with a trailing "/" added when missing. */
  function DestDir(dest: string): (d: string)
    ensures |d| > 0 && d[|d| - 1] == '/'
    ensures |dest| <= |d| <= |dest| + 1 && d[..|dest|] == dest
    ensures |dest| > 0 && dest[|dest| - 1] == '/' ==> d == dest
    ensures !(|dest| > 0 && dest[|dest| - 1] == '/') ==> d == dest + "/"
  {
    if |dest| > 0 && dest[|dest| - 1] == '/' then dest else dest + "/"
  }

  lemma DestDirIdempotent(dest: string)
    ensures DestDir(DestDir(dest)) == DestDir(dest)
  {
  }

  /** A record is extracted when no names were given, or when its normalised
      name is one of them. */
  predicate Selected(names: seq<string>, name: string): (b: bool)
    ensures names == [] ==> b
    ensures Normalize(name) in names ==> b
  {
    names == [] || Normalize(name) in names
  }

  /** Selection ignores padding and case: a name is selected exactly when its
      normalised form is. */
  lemma SelectedNormalized(names: seq<string>, name: string)
    ensures Selected(names, name) <==> Selected(names, Normalize(name))
  {
    NormalizeIdempotent(name);
  }

  /** `dest/name(ssss-eeee).type`, all in lower case, the addresses as four
      hexadecimal digits. */
  function OutputFileName(dest: string, name: string, startAddr: nat, endAddr: nat, fileType: string): (f: string)
    ensures |DestDir(dest)| <= |f| && f[..|DestDir(dest)|] == DestDir(dest)
    ensures |fileType| + 2 <= |f| && f[|f| - |fileType| - 2..] == ")." + Lower(fileType)
  {
    var dir, stem := DestDir(dest), Normalize(name) + "(" + Hex04(startAddr) + "-" + Hex04(endAddr);
    var ext := ")." + Lower(fileType);
    assert (dir + stem + ext)[..|dir|] == (dir + stem)[..|dir|] == dir;
    dir + stem + ext
  }

  /** The layout of an output file name `f == dir + norm + "(" + h1 + "-" + h2
      + ")." + e` with four-character address fields `h1` and `h2`: every part
      sits at a fixed position relative to the name's length, so each can be
      read back. With `dir == DestDir(dest)`, `norm == Normalize(name)`,
      `h1, h2 == Hex04(start), Hex04(end)` (four characters by `Hex04Address`,
      which also reads them back) and `e == Lower(type)` this is the layout
      of `OutputFileName`. */
  lemma FileNameLayout(f: string, dir: string, norm: string, h1: string, h2: string, e: string)
    requires |h1| == 4 && |h2| == 4
    requires f == dir + norm + "(" + h1 + "-" + h2 + ")." + e
    ensures var d, n := |dir|, |norm|;
            |f| == d + n + 12 + |e|
            && f[..d] == dir
            && f[d..d + n] == norm
            && f[d + n] == '(' && f[d + n + 5] == '-' && f[d + n + 10..d + n + 12] == ")."
            && f[d + n + 1..d + n + 5] == h1
            && f[d + n + 6..d + n + 10] == h2
            && f[d + n + 12..] == e
  {
    var mid := "(" + h1 + "-" + h2 + ").";
    assert mid[1..5] == h1 && mid[6..10] == h2;
    assert f == dir + norm + mid + e;
    var d, n := |dir|, |norm|;
    assert f[d + n..d + n + 12] == mid;
    assert f[d + n + 1..d + n + 5] == mid[1..5];
    assert f[d + n + 6..d + n + 10] == mid[6..10];
  }

  /** What the pass does with one decoded record: a listing row in list mode;
      in extract mode a skip report or an extracted file. */
  function RecordAction(data: seq<Byte>, rec: DirectoryRecord, mode: Mode, dest: string): (a: Action)
    ensures a.Listed? <==> mode.List?
  {
    var fileName := FromBytes(rec.name);
    match mode
    case List =>
      Listed(fileName, rec.FileType(), Hex04(rec.StartAddr()), Hex04(rec.endAddr))
    case Extract(names) =>
      if names != [] && Normalize(fileName) !in names then Skipped(Strip(fileName))
      else Extracted(OutputFileName(dest, fileName, rec.StartAddr(), rec.endAddr, rec.FileType()),
                     Payload(data, rec))
  }

  /** How many of the first `entries` directory records can be read before
      the buffer runs out. */
  function ReadableCount(data: seq<Byte>, entries: nat): (n: nat)
    ensures n <= entries
    ensures n == 0 || RecordReadable(data, RecordOffset(n - 1))
    ensures n < entries ==> !RecordReadable(data, RecordOffset(n))
  {
    if |data| < RecordOffset(0) + 12 then 0
    else
      var fit := (|data| - (RecordOffset(0) + 12)) / FileRecordLength + 1;
      if entries < fit then entries else fit
  }

  /** The actions for directory records `0 .. k - 1`, in order. */
  function Records(data: seq<Byte>, k: nat, mode: Mode, dest: string): (acts: seq<Action>)
    requires k == 0 || RecordReadable(data, RecordOffset(k - 1))
    ensures |acts| == k
  {
    seq(k, i requires 0 <= i < k => RecordAction(data, ReadRecord(data, RecordOffset(i)), mode, dest))
  }

  /** One more readable record adds its action at the end. */
  lemma RecordsSnoc(data: seq<Byte>, k: nat, mode: Mode, dest: string)
    requires RecordReadable(data, RecordOffset(k))
    ensures Records(data, k + 1, mode, dest)
            == Records(data, k, mode, dest) + [RecordAction(data, ReadRecord(data, RecordOffset(k)), mode, dest)]
  {
    var longer, prefix := Records(data, k + 1, mode, dest), Records(data, k, mode, dest);
    var last := RecordAction(data, ReadRecord(data, RecordOffset(k)), mode, dest);
    forall j | 0 <= j < k + 1
      ensures longer[j] == (prefix + [last])[j]
    {
      if j < k {
        assert longer[j] == prefix[j];
      } else {
        assert longer[j] == last;
      }
    }
    assert |longer| == |prefix + [last]|;
  }

  /** The pass as a function of the buffer: reads the header, then visits
      records 0, 1, ... in order and stops at the first one that cannot be
      read. */
  function Process(data: seq<Byte>, mode: Mode, dest: string): (r: Result<Pass>)
    ensures r.Ok? <==> |data| >= 38
    ensures r.Ok? ==> |r.value.actions| == ReadableCount(data, r.value.header.entries) <= r.value.header.entries
    ensures r.Ok? ==> (r.value.complete <==> |r.value.actions| == r.value.header.entries)
  {
    match ReadHeader(data)
    case Err(e) => Err(e)
    case Ok(h) =>
      var n := ReadableCount(data, h.entries);
      Ok(Pass(h, Records(data, n, mode, dest), n == h.entries))
  }

  /** The walk stops at the first record it cannot read, or after the last
      entry: that is after ReadableCount records. */
  lemma WalkEnd(data: seq<Byte>, entries: nat, rec: nat)
    requires rec <= entries
    requires rec == 0 || RecordReadable(data, RecordOffset(rec - 1))
    requires rec == entries || !RecordReadable(data, RecordOffset(rec))
    ensures rec == ReadableCount(data, entries)
  {
  }

  /** `process_data`: the header read, then `for rec in range(entries)` with a
      running `recordOffset` that starts at 64 and grows by 32. Reading a
      record past the end of the buffer ends the walk. */
  method ProcessData(data: seq<Byte>, mode: Mode, dest: string) returns (r: Result<Pass>)
    ensures r == Process(data, mode, dest)
  {
    var header := ReadHeader(data);
    if header.Err? {
      return Err(header.error);
    }
    var h := header.value;
    var actions: seq<Action> := [];
    var recordOffset := FileRecordStart;
    var rec := 0;
    while rec < h.entries
      invariant rec <= h.entries
      invariant recordOffset == RecordOffset(rec)
      invariant rec == 0 || RecordReadable(data, RecordOffset(rec - 1))
      invariant actions == Records(data, rec, mode, dest)
    {
      if !RecordReadable(data, recordOffset) {
        break;
      }
      var record := ReadRecord(data, recordOffset);
      RecordsSnoc(data, rec, mode, dest);
      actions := actions + [RecordAction(data, record, mode, dest)];
      recordOffset := recordOffset + FileRecordLength;
      rec := rec + 1;
    }
    WalkEnd(data, h.entries, rec);
    r := Ok(Pass(h, actions, rec == h.entries));
  }

  /** Action `i` of the walk is the action for the record decoded at
      `RecordOffset(i) == 64 + 32 * i`: the walk visits records in order. */
  lemma DirectoryWalk(data: seq<Byte>, mode: Mode, dest: string, i: nat)
    requires Process(data, mode, dest).Ok?
    requires i < |Process(data, mode, dest).value.actions|
    ensures RecordReadable(data, RecordOffset(i))
    ensures Process(data, mode, dest).value.actions[i] == RecordAction(data, ReadRecord(data, RecordOffset(i)), mode, dest)
  {
  }

  /** The walk reaches every directory entry exactly when the last entry's
      fixed fields lie in the buffer; in particular when the whole directory
      of `64 + 32 * entries` bytes does. */
  lemma DirectoryComplete(data: seq<Byte>, mode: Mode, dest: string)
    requires |data| >= 38
    ensures var p := Process(data, mode, dest).value;
            p.complete <==> p.header.entries == 0 || RecordReadable(data, RecordOffset(p.header.entries - 1))
    ensures var p := Process(data, mode, dest).value;
            |data| >= RecordOffset(p.header.entries) ==> p.complete && |p.actions| == p.header.entries
  {
  }

  /** The entry count is the little-endian reading of bytes 36 and 37. */
  lemma EntryCount(data: seq<Byte>, mode: Mode, dest: string)
    requires |data| >= 38
    ensures var p := Process(data, mode, dest).value;
            p.header.entries == U16(data[36], data[37]) == LittleEndian(data[36..38]) && p.header.entries < 0x1_0000
  {
    assert data[36..38] == [data[36], data[37]];
  }

  /** A listing row shows the raw name, the type label and both addresses as
      four hexadecimal digits that read back as the addresses. */
  lemma ListedRow(data: seq<Byte>, rec: DirectoryRecord, dest: string)
    requires rec.StartAddr() < 0x1_0000 && rec.endAddr < 0x1_0000
    ensures var a := RecordAction(data, rec, List, dest);
            a.Listed? && a == Listed(FromBytes(rec.name), FileTypeLabel(rec.fileTypeCode), a.startHex, a.endHex)
            && |a.startHex| == 4 && ParseHex(a.startHex) == rec.StartAddr()
            && |a.endHex| == 4 && ParseHex(a.endHex) == rec.endAddr
            && (forall k :: 0 <= k < 4 ==> IsHexDigit(a.startHex[k]) && IsHexDigit(a.endHex[k]))
  {
    Hex04Address(rec.StartAddr());
    Hex04Address(rec.endAddr);
  }

  /** In list mode every visited record is listed, with its addresses as
      stored, whether or not the address range is ordered. */
  lemma ListingRows(data: seq<Byte>, dest: string, i: nat)
    requires Process(data, List, dest).Ok?
    requires i < |Process(data, List, dest).value.actions|
    ensures var rec, a := ReadRecord(data, RecordOffset(i)), Process(data, List, dest).value.actions[i];
            a.Listed? && a == Listed(FromBytes(rec.name), FileTypeLabel(rec.fileTypeCode), a.startHex, a.endHex)
            && |a.startHex| == 4 && ParseHex(a.startHex) == rec.StartAddr()
            && |a.endHex| == 4 && ParseHex(a.endHex) == rec.endAddr
            && (forall k :: 0 <= k < 4 ==> IsHexDigit(a.startHex[k]) && IsHexDigit(a.endHex[k]))
  {
    DirectoryWalk(data, List, dest, i);
    ListedRow(data, ReadRecord(data, RecordOffset(i)), dest);
  }

  /** In extract mode a record is extracted exactly when it is selected, and
      reported as skipped under its stripped name otherwise. */
  lemma SelectedRecord(data: seq<Byte>, rec: DirectoryRecord, names: seq<string>, dest: string)
    ensures var name, a := FromBytes(rec.name), RecordAction(data, rec, Extract(names), dest);
            (a.Extracted? <==> Selected(names, name))
            && (a.Skipped? <==> !Selected(names, name))
            && (a.Skipped? ==> a.name == Strip(name))
  {
  }

  /** The selection rule holds for every record the walk visits. */
  lemma ExtractSelection(data: seq<Byte>, names: seq<string>, dest: string, i: nat)
    requires Process(data, Extract(names), dest).Ok?
    requires i < |Process(data, Extract(names), dest).value.actions|
    ensures var name, a := FromBytes(ReadRecord(data, RecordOffset(i)).name), Process(data, Extract(names), dest).value.actions[i];
            (a.Extracted? <==> Selected(names, name))
            && (a.Skipped? <==> !Selected(names, name))
            && (a.Skipped? ==> a.name == Strip(name))
  {
    DirectoryWalk(data, Extract(names), dest, i);
    SelectedRecord(data, ReadRecord(data, RecordOffset(i)), names, dest);
  }

  /** An extracted file is named after its record and starts with the load
      address; when the record's content lies in the buffer, the rest is that
      content, `end_addr - start_addr` bytes of it. */
  lemma ExtractedRecord(data: seq<Byte>, rec: DirectoryRecord, names: seq<string>, dest: string, a: Action)
    requires a == RecordAction(data, rec, Extract(names), dest) && a.Extracted?
    ensures a.fileName == OutputFileName(dest, FromBytes(rec.name), rec.StartAddr(), rec.endAddr, rec.FileType())
            && |a.payload| >= 2 && LittleEndian(a.payload[..2]) == rec.StartAddr()
            && (rec.StartAddr() <= rec.endAddr && rec.ContentEnd() <= |data| ==>
                  |a.payload| == 2 + (rec.endAddr - rec.StartAddr())
                  && a.payload[2..] == data[rec.contentStart..rec.ContentEnd()])
  {
    PayloadLoadAddress(data, rec);
    if rec.StartAddr() <= rec.endAddr && rec.ContentEnd() <= |data| {
      PayloadContent(data, rec);
    }
  }

  /** What ExtractedRecord states holds for every file the walk extracts. */
  lemma ExtractedFile(data: seq<Byte>, names: seq<string>, dest: string, i: nat)
    requires Process(data, Extract(names), dest).Ok?
    requires i < |Process(data, Extract(names), dest).value.actions|
    requires Process(data, Extract(names), dest).value.actions[i].Extracted?
    ensures var rec, a := ReadRecord(data, RecordOffset(i)), Process(data, Extract(names), dest).value.actions[i];
            a.fileName == OutputFileName(dest, FromBytes(rec.name), rec.StartAddr(), rec.endAddr, rec.FileType())
            && |a.payload| >= 2 && LittleEndian(a.payload[..2]) == rec.StartAddr()
            && (rec.StartAddr() <= rec.endAddr && rec.ContentEnd() <= |data| ==>
                  |a.payload| == 2 + (rec.endAddr - rec.StartAddr())
                  && a.payload[2..] == data[rec.contentStart..rec.ContentEnd()])
  {
    DirectoryWalk(data, Extract(names), dest, i);
    ExtractedRecord(data, ReadRecord(data, RecordOffset(i)), names, dest, Process(data, Extract(names), dest).value.actions[i]);
  }
}
