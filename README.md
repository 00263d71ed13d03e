# t64-dump: a verified model of `process_data`

t64-dump reads a T64 archive, the container format that holds Commodore 64
cassette-tape images, and then lists or extracts the programs stored in it.
All of the format decoding happens in `process_data`:

1. It reads the header fields: a 32-byte tape description, a 24-byte user
   description and a little-endian 16-bit entry count at offset 36.
2. It walks `entries` directory records. They are 32 bytes each and start at
   offset 64.
3. For each record it decodes these fields:
   - the entry type;
   - the file-type code, looked up in `FILE_TYPES` with an `"UNK"` fallback;
   - the 16-bit start and end load addresses;
   - the 32-bit content offset;
   - the 16-byte name.
4. It then does one of three things with the record:
   - in `--list` mode, prints a listing row;
   - in `--extract` mode, reports the record as skipped when a name filter is
     given and the record's name is not in it;
   - otherwise, builds the output file name and the PRG payload. The payload
     is the two load-address bytes followed by the content bytes.

The model has four modules.

- `Bytes` (`bytes.dfy`) covers the byte level:
  - Python's unbounded `<<`, `>>`, `|` and `&` on non-negative integers;
  - the 16- and 32-bit field compositions, proved equal to an independent
    little-endian reading;
  - the low/high byte split;
  - Python's slicing of a byte string, with negative bounds, clamping and
    reversed bounds.
- `Text` (`text.dfy`) covers the string operations the decoder applies:
  - `strip()` and `lower()` over ASCII;
  - their composition, `name.strip().lower()`;
  - `format(x, '04x')`, with a reference parser that reads the digits back.
- `T64` (`t64.dfy`) covers the archive layout:
  - the layout constants and the file-type table;
  - reading the header;
  - decoding one directory record at a given offset;
  - the content span and the payload.
- `Dump` (`dump.dfy`) covers the pass itself:
  - `ProcessData` is the `for rec in range(entries)` loop, with its running
    `recordOffset`. It is proved equal to the functional specification
    `Process`.
  - Each record produces an `Action`: `Listed`, `Skipped` or `Extracted`.
    An `Extracted` action carries the output file name and the payload that
    would be written.
  - The lemmas state what the pass produces for every record it visits.

The source does no bounds checking. The model follows the code.

- An input shorter than 38 bytes fails the read of the entry count with
  `IndexError`. These bytes are indexed, while the two descriptions are
  slices and never fail.
- A record can be decoded when its highest indexed byte, the last byte of the
  content offset at +11, lies inside the buffer. The name is a slice and is
  cut short by the end of the buffer.
- The walk stops at the first record that cannot be decoded. The actions of
  the earlier records have already happened. `Pass.complete` is then false.
- The content slice uses Python's slice semantics. The span can run past the
  buffer, which clamps it. The end address can lie below the start address,
  which gives an empty slice, or a negative end counted from the buffer's end.

Four consequences of this are easy to miss:

- The code needs only 38 header bytes, not the 64 the header occupies.
- A short directory is not detected up front. It fails only when the walk
  indexes past the end, after the earlier records have been handled.
  `Pass.complete` and `Dump.DirectoryComplete` say exactly when the walk
  finishes.
- A record whose end address lies below its start address, or whose content
  runs off the buffer, is not rejected. Its payload is whatever Python's slice
  gives.
- A filter name that matches no record is not reported.

## Model

| member | source | states |
|---|---|---|
| Bytes.Shl | t64-dump/t64-dump.py:104-110 | `x << n` leaves the low `n` bits clear, and shifting back right by `n` recovers `x` |
| Bytes.BitOr | t64-dump/t64-dump.py:104-110 | `a or b` lies between the larger operand and their sum; for operands with no common bit `Bytes.OrDisjoint` gives its value |
| Bytes.BitOrKeepsBits | t64-dump/t64-dump.py:104-110 | `a or b` keeps every bit of both operands: and-ing it with either operand gives that operand back |
| Bytes.OrDisjoint | t64-dump/t64-dump.py:104 | `a << k` or-ed with `b` equals `a * 2^k + b` whenever `b < 2^k`: the two operands share no bit |
| Bytes.OrShift | t64-dump/t64-dump.py:107-110 | shifting both operands of a bitwise or left by `j` shifts the result left by `j` |
| Bytes.AndMask | t64-dump/t64-dump.py:102-104 | `x & (2^k - 1)` is `x mod 2^k`; the code never masks, since it reads the two address bytes directly, so this serves only to state the split that inverts the composition at 104 |
| Bytes.U16 | t64-dump/t64-dump.py:104-106 | `(hi << 8) or lo` equals `hi * 256 + lo`, lies below 0x10000, and is the little-endian reading of `[lo, hi]` |
| Bytes.OrChain | t64-dump/t64-dump.py:107-110 | the or of `b3 << 24`, `b2 << 16`, `b1 << 8` and `b0` equals the weighted sum of its four bytes |
| Bytes.LittleEndian4 | t64-dump/t64-dump.py:107-110 | the little-endian reading of four bytes is their weighted sum |
| Bytes.U32 | t64-dump/t64-dump.py:107-110 | the content-offset composition equals the weighted sum, lies below 2^32, and is the little-endian reading of its four bytes |
| Bytes.LoByte | t64-dump/t64-dump.py:102 | the low byte of an address is `x mod 256`; the code reads this byte from the record rather than computing it, and the model uses the split only to state that 104 can be inverted |
| Bytes.HiByte | t64-dump/t64-dump.py:103 | the high byte of a 16-bit address is `x div 256` and fits in a byte; as with LoByte, the code reads it rather than computing it |
| Bytes.SplitCompose | t64-dump/t64-dump.py:102-104 | the bytes read at 102-103 can be recovered from the address composed at 104: splitting `(hi << 8) or lo` into its low and high bytes gives back `lo` and `hi` |
| Bytes.ComposeSplit | t64-dump/t64-dump.py:102-104 | composing the two bytes of a 16-bit value gives back the value |
| Bytes.SliceBound | t64-dump/t64-dump.py:129 | a Python slice bound is normalised into `0..n`, and an in-range bound is kept |
| Bytes.PySlice | t64-dump/t64-dump.py:129 | `s[i:j]` is never longer than `s`; it is the ordinary slice for in-range ordered bounds, empty when the normalised bounds are reversed, and the normalised slice otherwise |
| Text.FromBytes | t64-dump/t64-dump.py:112-113 | decoding keeps the length, and each character has its byte's code |
| Text.FromBytesInjective | t64-dump/t64-dump.py:112-113 | two byte strings that decode to the same name are the same bytes |
| Text.StripLeft | t64-dump/t64-dump.py:118 | `lstrip()` removes an all-whitespace prefix and leaves a result that starts with no whitespace |
| Text.StripRight | t64-dump/t64-dump.py:118 | `rstrip()` removes an all-whitespace suffix and leaves a result that ends with no whitespace |
| Text.Strip | t64-dump/t64-dump.py:118 | `strip()` leaves no whitespace at either end, and is empty exactly when the input is all whitespace |
| Text.StripPadded | t64-dump/t64-dump.py:118-119 | stripping a whitespace-padded name gives back exactly the name |
| Text.StripIdempotent | t64-dump/t64-dump.py:118-119 | stripping twice is stripping once |
| Text.Lower | t64-dump/t64-dump.py:124 | `lower()` keeps the length, leaves no upper-case letter, lowers each upper-case letter by 32 code points and keeps every other character |
| Text.LowerIdempotent | t64-dump/t64-dump.py:124 | lowering twice is lowering once |
| Text.StripLowerCommute | t64-dump/t64-dump.py:118 | `s.strip().lower() == s.lower().strip()` |
| Text.Normalize | t64-dump/t64-dump.py:118 | `name.strip().lower()` has no whitespace at either end and no upper-case letter |
| Text.NormalizeIdempotent | t64-dump/t64-dump.py:118 | normalising a normalised name changes nothing |
| Text.DigitValue | t64-dump/t64-dump.py:117 | the value of a hexadecimal digit is below 16 and inverts the digit spelling |
| Text.HexString | t64-dump/t64-dump.py:117 | `format(x, 'x')` is a non-empty string of lower-case hexadecimal digits, with no leading zero unless `x` is 0 |
| Text.HexStringRoundTrip | t64-dump/t64-dump.py:117 | reading `format(x, 'x')` back gives `x` |
| Text.HexStringLength | t64-dump/t64-dump.py:117 | a value below `16^k` needs at most `k` digits |
| Text.ParseLeadingZeros | t64-dump/t64-dump.py:117 | leading zero padding does not change the value read back |
| Text.Hex04 | t64-dump/t64-dump.py:117 | `format(x, '04x')` consists of hexadecimal digits only |
| Text.Hex04Length | t64-dump/t64-dump.py:117 | `format(x, '04x')` of a 16-bit value is exactly four characters |
| Text.Hex04Address | t64-dump/t64-dump.py:124 | `format(x, '04x')` of a 16-bit value is four digits that read back as `x` |
| T64.FileTypeLabel | t64-dump/t64-dump.py:101 | the lookup is total: its label is a table entry or "UNK", and it is "UNK" exactly outside 0x80..0x84 |
| T64.FileTypeTable | t64-dump/t64-dump.py:30-36 | 0x80..0x84 map to DEL, SEQ, PRG, USR and REL, and every other code maps to "UNK" |
| T64.FileTypeLabelInjective | t64-dump/t64-dump.py:30-36 | two codes with the same known label are the same code |
| T64.ReadHeader | t64-dump/t64-dump.py:81-86 | succeeds exactly when byte 37 exists; the entry count is the little-endian reading of bytes 36-37, below 0x10000; the description is bytes 0-31 and the user description is bytes 40-63, clamped to the buffer |
| T64.RecordOffset | t64-dump/t64-dump.py:96-144 | record `rec` starts a whole number `rec` of 32-byte slots past byte 64 |
| T64.RecordsDisjoint | t64-dump/t64-dump.py:96-144 | a later record starts at or after the end of an earlier one, so the slots never overlap |
| T64.ReadRecord | t64-dump/t64-dump.py:99-113 | a decoded record has 16-bit start and end addresses and a 32-bit content offset |
| T64.RecordFields | t64-dump/t64-dump.py:99-113 | every field of the record at `offset` is read at `offset` plus its layout offset, little-endian for multi-byte fields; the name is the 16 bytes from +16, cut short by the end of the buffer |
| T64.DirectoryRecord.ContentEnd | t64-dump/t64-dump.py:111 | the content end lies at or after the content start exactly when the end address is at or after the start address, and never more than 0xFFFF bytes before the start |
| T64.ContentSpan | t64-dump/t64-dump.py:111 | `content_end - content_start == end_addr - start_addr`, and this difference lies strictly between -0x10000 and 0x10000 |
| T64.Payload | t64-dump/t64-dump.py:129 | the payload starts with the two stored load-address bytes |
| T64.PayloadLoadAddress | t64-dump/t64-dump.py:129 | the payload's first two bytes read little-endian are the start address, and they are its low and high bytes |
| T64.PayloadContent | t64-dump/t64-dump.py:129 | for an ordered address range whose content lies in the buffer, the payload has `2 + (end - start)` bytes and its tail is `data[content_start:content_end]` |
| T64.PayloadClamped | t64-dump/t64-dump.py:129 | content that runs past the buffer is cut at the buffer's end, so the payload holds fewer bytes than the address range claims |
| T64.PayloadReversedRange | t64-dump/t64-dump.py:129 | an end address below the start address gives the bare load address, unless the computed end is negative and Python counts it from the buffer's end |
| Dump.DestDir | t64-dump/t64-dump.py:121-122 | the destination directory ends in "/"; it is the given path unchanged when that already ends in "/", and the path with "/" appended otherwise |
| Dump.DestDirIdempotent | t64-dump/t64-dump.py:121-122 | adding the trailing "/" twice is adding it once |
| Dump.Selected | t64-dump/t64-dump.py:118 | an empty name filter selects every record, and a name whose normalised form is in the filter is selected |
| Dump.SelectedNormalized | t64-dump/t64-dump.py:118 | selection ignores padding and case: a name is selected exactly when its normalised form is |
| Dump.OutputFileName | t64-dump/t64-dump.py:123-124 | the output file lies in the destination directory and ends in `).` followed by the lower-cased type label |
| Dump.FileNameLayout | t64-dump/t64-dump.py:123-124 | in `dir + name + "(" + h1 + "-" + h2 + ")." + ext` with four-character address fields, every part sits at a fixed position and can be read back |
| Dump.RecordAction | t64-dump/t64-dump.py:115-129 | a record gives a listing row exactly in list mode; in extract mode it gives a skip report or an extracted file |
| Dump.ReadableCount | t64-dump/t64-dump.py:96-110 | the number of records decoded before the buffer runs out is at most `entries`; the last of them can be decoded, and the next one cannot |
| Dump.Records | t64-dump/t64-dump.py:96-144 | records `0..k-1` give exactly `k` actions |
| Dump.RecordsSnoc | t64-dump/t64-dump.py:97-144 | one more readable record appends its action at the end |
| Dump.Process | t64-dump/t64-dump.py:79-144 | the pass succeeds exactly when the header can be read; it visits exactly `ReadableCount` records, so at most `entries`, and it is complete exactly when it visits all of them |
| Dump.WalkEnd | t64-dump/t64-dump.py:96-110 | the walk stops after exactly `ReadableCount` records |
| Dump.ProcessData | t64-dump/t64-dump.py:79-144 | the loop, with `recordOffset == 64 + 32 * rec` as its invariant, computes `Process` |
| Dump.DirectoryWalk | t64-dump/t64-dump.py:96-97 | action `i` of the pass is the action for the record decoded at `64 + 32 * i`, so the records are visited in order |
| Dump.DirectoryComplete | t64-dump/t64-dump.py:96-110 | the walk reaches every entry exactly when the last entry can be decoded; in particular it visits all `entries` records when the buffer holds `64 + 32 * entries` bytes |
| Dump.EntryCount | t64-dump/t64-dump.py:85-86 | the pass's entry count is `(data[37] << 8) or data[36]`, the little-endian reading of bytes 36-37, below 0x10000 |
| Dump.ListedRow | t64-dump/t64-dump.py:115-117 | a listing row shows the raw name, the type label and both addresses as four hexadecimal digits that read back as the addresses |
| Dump.ListingRows | t64-dump/t64-dump.py:115-117 | in list mode every visited record is listed like that, ordered address range or not |
| Dump.SelectedRecord | t64-dump/t64-dump.py:118-119 | in extract mode a record is extracted exactly when no names are given or its normalised name is one of them, and is otherwise skipped under its stripped name |
| Dump.ExtractSelection | t64-dump/t64-dump.py:118-119 | that selection rule holds for every record the pass visits |
| Dump.ExtractedRecord | t64-dump/t64-dump.py:120-129 | an extracted file has the record's output name; its payload starts with the load address, and for a valid span it is then exactly the content |
| Dump.ExtractedFile | t64-dump/t64-dump.py:120-129 | that holds for every file the pass extracts |

## Left out

- `main` (t64-dump/t64-dump.py:39-76) is argument parsing, the zip wrapper, reading the input file and the `FileNotFoundError` handler. The buffer is a parameter, and the two modes and the destination are a `Mode` value and a string.
- Console output (t64-dump/t64-dump.py:58-59, 88-93, 116-117, 119, 125-126) is not printed. The contents of a listing row and of a skip report are the `Listed` and `Skipped` actions.
- Directory creation, file writing and their bare `except` handlers (t64-dump/t64-dump.py:132-142) are filesystem effects. An extraction is modelled as the name and payload it would write.
- The UTF-8 `.decode()` calls (t64-dump/t64-dump.py:82, 84, 113) are not modelled.
  - Bytes become characters with the same code, which agrees with UTF-8 on ASCII.
  - A non-UTF-8 name or description raises in the source but not in the model.
  - The two descriptions are kept as bytes.
- Text.Strip: only ASCII whitespace is stripped. Python's `str.strip()` also strips non-ASCII whitespace.
- Text.Lower: only ASCII letters are lowered. Python's `str.lower()` also lowers non-ASCII letters.
- `entry_type` (t64-dump/t64-dump.py:99) is decoded and stored but never used, which is also what the source does. It still counts towards the bytes a record needs.
- An `IndexError` ends `process_data`, and with it the whole program. The model returns `Err` for the header and `complete == false` for a truncated walk. When the archive comes from a zip file, the items after the failing one are not processed; the model does not cover this.
- Dump.FileNameLayout is stated for any string of the output-name shape. It is not restated over `OutputFileName`, which has that shape by definition.
