/** The T64 tape-archive layout and the decoding of its header and directory
    records, as `process_data` in t64-dump reads them. */
module T64 {
  import opened Bytes
  import opened Text

  // Tape archive image format constants.
  const TapeRecordDescriptionStart := 0
  const TapeRecordDescriptionLength := 32
  const TapeRecordUserDescriptionStart := 40
  const TapeRecordUserDescriptionLength := 24
  const TapeRecordDirectoryEntriesStart := 36
  const FileRecordStart := 64
  const FileRecordLength := 32
  const FileRecordOffsetEntryType := 0
  const FileRecordOffsetFileType := 1
  const FileRecordOffsetStartAddr := 2
  const FileRecordOffsetEndAddr := 4
  const FileRecordOffsetContentStart := 8
  const FileRecordOffsetFileNameStart := 16
  const FileRecordOffsetFileNameLength := 16

  /** The C64 file types the directory knows by code. */
  const FileTypes: map<Byte, string> :=
    map[0x80 := "DEL", 0x81 := "SEQ", 0x82 := "PRG", 0x83 := "USR", 0x84 := "REL"]

  /** The decoder indexes the buffer without checking its length; Python
      raises IndexError on the first byte past the end. */
  datatype DecodeError = IndexError

  datatype Result<T> = Ok(value: T) | Err(error: DecodeError)

  datatype Header = Header(description: seq<Byte>, userDescription: seq<Byte>, entries: nat)

  /** One 32-byte directory slot, its multi-byte fields already composed. */
  datatype DirectoryRecord = DirectoryRecord(
    entryType: Byte,
    fileTypeCode: Byte,
    startLo: Byte,
    startHi: Byte,
    endAddr: nat,
    contentStart: nat,
    name: seq<Byte>)
  {
    function StartAddr(): nat
    {
      U16(startLo, startHi)
    }

    /** The type label: the table entry, or "UNK" for any other code. */
    function FileType(): string
    {
      FileTypeLabel(fileTypeCode)
    }

    /** `content_start + (end_addr - start_addr)`; negative when the end
        address lies far enough below the start address. */
    function ContentEnd(): (r: int)
      ensures r >= contentStart <==> endAddr >= StartAddr()
      ensures r > contentStart - 0x1_0000
    {
      contentStart + (endAddr - StartAddr())
    }
  }

  /** `FILE_TYPES[code] if code in FILE_TYPES else "UNK"`: defined for every byte. */
  function FileTypeLabel(code: Byte): (t: string)
    ensures t in FileTypes.Values || t == "UNK"
    ensures t != "UNK" <==> 0x80 <= code <= 0x84
  {
    if code in FileTypes then FileTypes[code] else "UNK"
  }

  /** The table itself: the five known codes and their labels. */
  lemma FileTypeTable()
    ensures FileTypeLabel(0x80) == "DEL" && FileTypeLabel(0x81) == "SEQ"
    ensures FileTypeLabel(0x82) == "PRG" && FileTypeLabel(0x83) == "USR"
    ensures FileTypeLabel(0x84) == "REL"
    ensures forall code: Byte :: code < 0x80 || code > 0x84 ==> FileTypeLabel(code) == "UNK"
  {
  }

  /** Distinct known codes have distinct labels, so a label other than "UNK"
      names its code. */
  lemma FileTypeLabelInjective(c1: Byte, c2: Byte)
    requires FileTypeLabel(c1) == FileTypeLabel(c2) != "UNK"
    ensures c1 == c2
  {
    FileTypeTable();
  }

  /** Reads the archive header. The two descriptions are slices, which Python
      clamps to the buffer; the entry count indexes bytes 36 and 37. */
  function ReadHeader(data: seq<Byte>): (r: Result<Header>)
    ensures r.Ok? <==> |data| > TapeRecordDirectoryEntriesStart + 1
    ensures r.Ok? ==> r.value.entries == LittleEndian(data[36..38]) < 0x1_0000
    ensures r.Ok? ==> r.value.description == data[..32]
    ensures r.Ok? && |data| >= 64 ==> r.value.userDescription == data[40..64]
    ensures r.Ok? && |data| < 64 ==> r.value.userDescription == PySlice(data, 40, |data|)
  {
    if |data| <= TapeRecordDirectoryEntriesStart + 1 then Err(IndexError)
    else
      var desc := PySlice(data, TapeRecordDescriptionStart,
                          TapeRecordDescriptionStart + TapeRecordDescriptionLength);
      var userDesc := PySlice(data, TapeRecordUserDescriptionStart,
                              TapeRecordUserDescriptionStart + TapeRecordUserDescriptionLength);
      var entries := U16(data[TapeRecordDirectoryEntriesStart], data[TapeRecordDirectoryEntriesStart + 1]);
      assert data[36..38] == [data[36], data[37]];
      Ok(Header(desc, userDesc, entries))
  }

  /** Where directory record `rec` starts: a whole number of record slots
      past the start of the directory. */
  function RecordOffset(rec: nat): (off: nat)
    ensures off >= FileRecordStart
    ensures (off - FileRecordStart) % FileRecordLength == 0
    ensures (off - FileRecordStart) / FileRecordLength == rec
  {
    FileRecordStart + rec * FileRecordLength
  }

  /** Directory records never overlap: each later record starts at or after
      the end of an earlier one. */
  lemma RecordsDisjoint(i: nat, j: nat)
    requires i < j
    ensures RecordOffset(i) + FileRecordLength <= RecordOffset(j)
  {
  }

  /** Every indexed read of a record lies in the buffer: the highest is the
      last byte of the content offset, at +11. The name is a slice and cannot
      fail. */
  predicate RecordReadable(data: seq<Byte>, offset: nat)
  {
    offset + FileRecordOffsetContentStart + 3 < |data|
  }

  /** Decodes the directory record that starts at `offset`. */
  function ReadRecord(data: seq<Byte>, offset: nat): (r: DirectoryRecord)
    requires RecordReadable(data, offset)
    ensures r.StartAddr() < 0x1_0000 && r.endAddr < 0x1_0000 && r.contentStart < 0x1_0000_0000
  {
    var entryType := data[offset + FileRecordOffsetEntryType];
    var fileTypeId := data[offset + FileRecordOffsetFileType];
    var startLo := data[offset + FileRecordOffsetStartAddr];
    var startHi := data[offset + FileRecordOffsetStartAddr + 1];
    var endAddr := U16(data[offset + FileRecordOffsetEndAddr], data[offset + FileRecordOffsetEndAddr + 1]);
    var contentStart := U32(data[offset + FileRecordOffsetContentStart],
                            data[offset + FileRecordOffsetContentStart + 1],
                            data[offset + FileRecordOffsetContentStart + 2],
                            data[offset + FileRecordOffsetContentStart + 3]);
    var name := PySlice(data, offset + FileRecordOffsetFileNameStart,
                        offset + FileRecordOffsetFileNameStart + FileRecordOffsetFileNameLength);
    DirectoryRecord(entryType, fileTypeId, startLo, startHi, endAddr, contentStart, name)
  }

  /** Each field of a record is read at the record's offset plus the field's
      offset in the layout, multi-byte fields little-endian; the name is the
      16 bytes from +16, cut short by the end of the buffer. */
  lemma RecordFields(data: seq<Byte>, offset: nat)
    requires RecordReadable(data, offset)
    ensures var r := ReadRecord(data, offset);
            && r.entryType == data[offset] && r.fileTypeCode == data[offset + 1]
            && r.startLo == data[offset + 2] && r.startHi == data[offset + 3]
            && r.StartAddr() == LittleEndian(data[offset + 2..offset + 4])
            && r.endAddr == LittleEndian(data[offset + 4..offset + 6])
            && r.contentStart == LittleEndian(data[offset + 8..offset + 12])
            && (|data| >= offset + 32 ==> r.name == data[offset + 16..offset + 32])
            && (offset + 16 <= |data| < offset + 32 ==> r.name == data[offset + 16..])
            && (|data| < offset + 16 ==> r.name == [])
  {
    assert data[offset + 2..offset + 4] == [data[offset + 2], data[offset + 3]];
    assert data[offset + 4..offset + 6] == [data[offset + 4], data[offset + 5]];
    assert data[offset + 8..offset + 12] == [data[offset + 8], data[offset + 9], data[offset + 10], data[offset + 11]];
  }

  /** The content span of a decoded record is as long as its address range,
      which is less than 0x10000 either way: the stored length is never used. */
  lemma ContentSpan(data: seq<Byte>, offset: nat)
    requires RecordReadable(data, offset)
    ensures var r := ReadRecord(data, offset);
            r.ContentEnd() - r.contentStart == r.endAddr - r.StartAddr()
            && -0x1_0000 < r.ContentEnd() - r.contentStart < 0x1_0000
  {
  }

  /** The loadable PRG file: the two load-address bytes as stored, then
      `data[content_start:content_end]` with Python's slice semantics. */
  function Payload(data: seq<Byte>, rec: DirectoryRecord): (p: seq<Byte>)
    ensures |p| >= 2 && p[..2] == [rec.startLo, rec.startHi]
  {
    [rec.startLo, rec.startHi] + PySlice(data, rec.contentStart, rec.ContentEnd())
  }

  /** The first two payload bytes, read little-endian, are the load address. */
  lemma PayloadLoadAddress(data: seq<Byte>, rec: DirectoryRecord)
    ensures LittleEndian(Payload(data, rec)[..2]) == rec.StartAddr()
    ensures LoByte(rec.StartAddr()) == Payload(data, rec)[0]
    ensures HiByte(rec.StartAddr()) == Payload(data, rec)[1]
  {
    SplitCompose(rec.startLo, rec.startHi);
  }

  /** When the address range is ordered and its content lies inside the
      buffer, the payload is the load address followed by exactly
      `end_addr - start_addr` content bytes, taken from the content offset on. */
  lemma PayloadContent(data: seq<Byte>, rec: DirectoryRecord)
    requires rec.StartAddr() <= rec.endAddr
    requires rec.ContentEnd() <= |data|
    ensures rec.ContentEnd() - rec.contentStart == rec.endAddr - rec.StartAddr()
    ensures |Payload(data, rec)| == 2 + (rec.endAddr - rec.StartAddr())
    ensures Payload(data, rec)[2..] == data[rec.contentStart..rec.ContentEnd()]
  {
  }

  /** The content runs past the end of the buffer: the slice is clamped and
      the payload silently holds fewer bytes than the address range claims. */
  lemma PayloadClamped(data: seq<Byte>, rec: DirectoryRecord)
    requires rec.StartAddr() <= rec.endAddr
    requires rec.contentStart <= |data| < rec.ContentEnd()
    ensures |Payload(data, rec)| == 2 + (|data| - rec.contentStart) < 2 + (rec.endAddr - rec.StartAddr())
    ensures Payload(data, rec)[2..] == data[rec.contentStart..]
  {
  }

  /** An end address below the start address gives a negative length. The
      payload is then the bare load address, unless the computed end is
      itself negative: Python then counts it from the end of the buffer. */
  lemma PayloadReversedRange(data: seq<Byte>, rec: DirectoryRecord)
    requires rec.endAddr < rec.StartAddr()
    ensures rec.ContentEnd() >= 0 ==> Payload(data, rec) == [rec.startLo, rec.startHi]
    ensures rec.ContentEnd() < 0 && rec.contentStart < |data| + rec.ContentEnd() ==>
              Payload(data, rec)[2..] == data[rec.contentStart..|data| + rec.ContentEnd()]
  {
  }
}
