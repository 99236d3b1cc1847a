/**
 * The HAB container reader of `hab_tool`.
 *
 * A container is a 32-byte header (`HAB0`, 16 opaque bytes, a `u16` entry
 * count at offset 20, a `u16` and a `u32` nobody reads, a `u32` total size
 * at offset 28), a table of 16-byte records (name offset, data offset, data
 * size, one unused `u32`), a block of NUL-terminated names addressed from the
 * end of the table, and payloads addressed from the position where the last
 * name read ended.
 *
 * `Parse` states what `Hab::new` computes, layer by layer. The methods
 * `ReadHeaderFields`, `ReadTableRecords` and `ReadNames` read those layers
 * field by field through a cursor, and `Hab.New` composes them; `HabFile` is
 * the bounded view (`io::Take`) over one entry's payload.
 */
module HabTool {
  import opened Bytes
  import opened Stream

  /** `b"HAB0"`. */
  const Magic: seq<Byte> := [0x48, 0x41, 0x42, 0x30]

  /** One table record; the fourth `u32` is read and dropped. */
  datatype FileMeta = FileMeta(nameOffset: U32, dataOffset: U32, dataSize: U32)

  /** A table record with its resolved name (valid UTF-8 once parsed). */
  datatype FileEntry = FileEntry(name: seq<Byte>, meta: FileMeta)

  /** The header fields `Hab::new` keeps: the entry count and `total_size`. */
  datatype Header = Header(count: U16, totalSize: U32)

  /** What `Hab::new` keeps besides the reader. */
  datatype Directory = Directory(entries: seq<FileEntry>, totalSize: U32, dataStart: nat)

  // ---------------------------------------------------------------------------
  // Specification of `Hab::new`, layer by layer
  // ---------------------------------------------------------------------------

  /** The first 32 bytes: magic, 16 opaque bytes, count, two unused fields, `total_size`. */
  function ReadHeader(data: seq<Byte>, base: nat): Result<Header>
  {
    if |data| < base + 4 then Err(UnexpectedEof)
    else if data[base..base + 4] != Magic then Err(BadMagic)
    else if |data| < base + 32 then Err(UnexpectedEof)
    else Ok(Header(LeU16(data[base + 20..base + 22]), LeU32(data[base + 28..base + 32])))
  }

  /** The record `FileMeta::from_reader` decodes from 16 bytes. */
  function DecodeMeta(rec: seq<Byte>): FileMeta
    requires |rec| == 16
  {
    FileMeta(LeU32(rec[0..4]), LeU32(rec[4..8]), LeU32(rec[8..12]))
  }

  /** The 16 bytes of a record, with `unknown` in the unused fourth word. */
  function EncodeMeta(m: FileMeta, unknown: U32): (rec: seq<Byte>)
    ensures |rec| == 16
  {
    LeBytes32(m.nameOffset) + LeBytes32(m.dataOffset) + LeBytes32(m.dataSize) + LeBytes32(unknown)
  }

  /** The first `n` records of the table that starts at `start`. */
  function MetaTable(data: seq<Byte>, start: nat, n: nat): (metas: seq<FileMeta>)
    requires start + 16 * n <= |data|
    ensures |metas| == n
  {
    seq(n, i requires 0 <= i < n => DecodeMeta(data[start + 16 * i..start + 16 * i + 16]))
  }

  /** The `count` records from `start` on, or `UnexpectedEof` if the source ends first. */
  function ReadTable(data: seq<Byte>, start: nat, count: nat): Result<seq<FileMeta>>
  {
    if |data| < start + 16 * count then Err(UnexpectedEof)
    else Ok(MetaTable(data, start, count))
  }

  /** The bytes `read_until(0)` consumes for an entry's name. */
  function RawName(data: seq<Byte>, filenamesStart: nat, m: FileMeta): seq<Byte>
  {
    ReadUntil(data, filenamesStart + m.nameOffset, 0)
  }

  /** The name `Hab::new` keeps: the raw bytes with their last byte popped. */
  function EntryName(data: seq<Byte>, filenamesStart: nat, m: FileMeta): seq<Byte>
  {
    Pop(RawName(data, filenamesStart, m))
  }

  /** The cursor after reading an entry's name. */
  function NameEnd(data: seq<Byte>, filenamesStart: nat, m: FileMeta): nat
  {
    filenamesStart + m.nameOffset + |RawName(data, filenamesStart, m)|
  }

  /** `data_start`: the cursor after the last name read, in table order. */
  function DataStart(data: seq<Byte>, filenamesStart: nat, metas: seq<FileMeta>): nat
  {
    if metas == [] then filenamesStart else NameEnd(data, filenamesStart, metas[|metas| - 1])
  }

  /** The entries, named in table order, paired with their records. */
  function Entries(data: seq<Byte>, filenamesStart: nat, metas: seq<FileMeta>): seq<FileEntry>
  {
    seq(|metas|, k requires 0 <= k < |metas| => FileEntry(EntryName(data, filenamesStart, metas[k]), metas[k]))
  }

  /** Every name, in table order, must be valid UTF-8 (`String::from_utf8`). */
  predicate NamesDecode(data: seq<Byte>, filenamesStart: nat, metas: seq<FileMeta>)
    decreases |metas|
  {
    metas == [] ||
    (NamesDecode(data, filenamesStart, metas[..|metas| - 1]) &&
     ValidUtf8(EntryName(data, filenamesStart, metas[|metas| - 1])))
  }

  /** `NamesDecode` holds exactly when each single name decodes. */
  lemma {:induction false} NamesDecodeAt(data: seq<Byte>, filenamesStart: nat, metas: seq<FileMeta>)
    ensures NamesDecode(data, filenamesStart, metas) <==>
      forall k | 0 <= k < |metas| :: ValidUtf8(EntryName(data, filenamesStart, metas[k]))
    decreases |metas|
  {
    if metas != [] {
      var init := metas[..|metas| - 1];
      NamesDecodeAt(data, filenamesStart, init);
      assert forall k | 0 <= k < |init| :: init[k] == metas[k];
    }
  }

  /** The names resolved in table order, or `InvalidUtf8` if one does not decode. */
  function ResolveNames(data: seq<Byte>, filenamesStart: nat, metas: seq<FileMeta>): Result<seq<FileEntry>>
  {
    if NamesDecode(data, filenamesStart, metas) then Ok(Entries(data, filenamesStart, metas))
    else Err(InvalidUtf8)
  }

  /** The result of `Hab::new` on a source whose cursor is at `base`. */
  ghost function Parse(data: seq<Byte>, base: nat): Result<Directory>
  {
    match ReadHeader(data, base)
    case Err(e) => Err(e)
    case Ok(header) =>
      match ReadTable(data, base + 32, header.count)
      case Err(e) => Err(e)
      case Ok(metas) =>
        var filenamesStart := base + 32 + 16 * header.count as int;
        match ResolveNames(data, filenamesStart, metas)
        case Err(e) => Err(e)
        case Ok(entries) => Ok(Directory(entries, header.totalSize, DataStart(data, filenamesStart, metas)))
  }

  // ---------------------------------------------------------------------------
  // Properties of the format as `Hab::new` reads it
  // ---------------------------------------------------------------------------

  /** Decoding recovers the three fields whatever the unused word holds. */
  lemma DecodeEncodeMeta(m: FileMeta, unknown: U32)
    ensures DecodeMeta(EncodeMeta(m, unknown)) == m
  {
    var rec := EncodeMeta(m, unknown);
    assert rec[0..4] == LeBytes32(m.nameOffset);
    assert rec[4..8] == LeBytes32(m.dataOffset);
    assert rec[8..12] == LeBytes32(m.dataSize);
    LeU32RoundTrip(m.nameOffset);
    LeU32RoundTrip(m.dataOffset);
    LeU32RoundTrip(m.dataSize);
  }

  /** Every byte of a record but the last four is accounted for by a field. */
  lemma EncodeDecodeMeta(rec: seq<Byte>)
    requires |rec| == 16
    ensures EncodeMeta(DecodeMeta(rec), LeU32(rec[12..16])) == rec
  {
    LeBytes32RoundTrip(rec[0..4]);
    LeBytes32RoundTrip(rec[4..8]);
    LeBytes32RoundTrip(rec[8..12]);
    LeBytes32RoundTrip(rec[12..16]);
    assert rec == rec[0..4] + rec[4..8] + rec[8..12] + rec[12..16];
  }

  /** A successful parse went through every layer; `count` and `metas` name the header count and the table. */
  lemma ParseOk(data: seq<Byte>, base: nat) returns (count: U16, metas: seq<FileMeta>)
    requires Parse(data, base).Ok?
    ensures ReadHeader(data, base).Ok? && count == ReadHeader(data, base).value.count
    ensures base + 32 + 16 * count as int <= |data|
    ensures metas == MetaTable(data, base + 32, count)
    ensures NamesDecode(data, base + 32 + 16 * count as int, metas)
    ensures Parse(data, base).value.entries == Entries(data, base + 32 + 16 * count as int, metas)
    ensures Parse(data, base).value.totalSize == ReadHeader(data, base).value.totalSize
    ensures Parse(data, base).value.dataStart == DataStart(data, base + 32 + 16 * count as int, metas)
  {
    count := ReadHeader(data, base).value.count;
    metas := MetaTable(data, base + 32, count);
  }

  /** The layers compose: a header, a table and names that all read cleanly make a directory. */
  lemma ParseLayers(data: seq<Byte>, base: nat, header: Header, metas: seq<FileMeta>, filenamesStart: nat, entries: seq<FileEntry>)
    requires ReadHeader(data, base) == Ok(header)
    requires ReadTable(data, base + 32, header.count) == Ok(metas)
    requires filenamesStart == base + 32 + 16 * header.count as int
    requires ResolveNames(data, filenamesStart, metas) == Ok(entries)
    ensures Parse(data, base) == Ok(Directory(entries, header.totalSize, DataStart(data, filenamesStart, metas)))
  {
  }

  /** Parsing succeeds only after exactly `HAB0`; any other four bytes are `BadMagic`. */
  lemma ParseChecksMagic(data: seq<Byte>, base: nat)
    ensures Parse(data, base).Ok? ==> base + 4 <= |data| && data[base..base + 4] == Magic
    ensures base + 4 <= |data| && data[base..base + 4] != Magic ==> Parse(data, base) == Err(BadMagic)
  {
  }

  /** On success the directory has as many entries as the header's count at offset 20. */
  lemma ParsedCount(data: seq<Byte>, base: nat)
    requires Parse(data, base).Ok?
    ensures base + 32 <= |data|
    ensures |Parse(data, base).value.entries| == LeU16(data[base + 20..base + 22])
  {
    var count, metas := ParseOk(data, base);
  }

  /** Once every name decodes, entry k's name is valid UTF-8 and holds no NUL. */
  lemma EntryNameDecodes(data: seq<Byte>, filenamesStart: nat, metas: seq<FileMeta>, k: nat)
    requires NamesDecode(data, filenamesStart, metas) && k < |metas|
    ensures ValidUtf8(Entries(data, filenamesStart, metas)[k].name)
    ensures forall i :: 0 <= i < |Entries(data, filenamesStart, metas)[k].name| ==>
      Entries(data, filenamesStart, metas)[k].name[i] != 0
  {
    NamesDecodeAt(data, filenamesStart, metas);
    EntryNameHasNoNul(data, filenamesStart, metas[k]);
  }

  /** Entry k of a parsed directory carries the record at offset 32 + 16k, in table order. */
  lemma ParsedRecordAt(data: seq<Byte>, base: nat, k: nat)
    requires Parse(data, base).Ok? && k < |Parse(data, base).value.entries|
    ensures base + 32 + 16 * k + 16 <= |data|
    ensures Parse(data, base).value.entries[k].meta == DecodeMeta(data[base + 32 + 16 * k..base + 32 + 16 * k + 16])
  {
    var count, metas := ParseOk(data, base);
    var entries := Entries(data, base + 32 + 16 * count as int, metas);
    assert k < count as int;
    assert entries[k].meta == metas[k];
  }

  /** A table that claims more records than the source holds fails before any name is read. */
  lemma TruncatedTableFails(data: seq<Byte>, base: nat)
    requires base + 32 <= |data| && data[base..base + 4] == Magic
    requires |data| < base + 32 + 16 * LeU16(data[base + 20..base + 22]) as int
    ensures Parse(data, base) == Err(UnexpectedEof)
  {
  }

  /** Names never contain a NUL byte, whether or not a terminator was found. */
  lemma EntryNameHasNoNul(data: seq<Byte>, filenamesStart: nat, m: FileMeta)
    ensures forall i :: 0 <= i < |EntryName(data, filenamesStart, m)| ==> EntryName(data, filenamesStart, m)[i] != 0
  {
    var raw := RawName(data, filenamesStart, m);
    ReadUntilStops(data, filenamesStart + m.nameOffset, 0);
    if raw != [] {
      var name := EntryName(data, filenamesStart, m);
      assert name == raw[..|raw| - 1];
      assert forall i :: 0 <= i < |name| ==> name[i] == raw[i];
    }
  }

  /**
   * An entry's name runs from `filenames_start + name_offset` up to, not
   * including, the first NUL; the cursor then stands just after that NUL.
   */
  lemma EntryNameUpToNul(data: seq<Byte>, filenamesStart: nat, m: FileMeta, j: nat)
    requires filenamesStart + m.nameOffset <= j < |data| && data[j] == 0
    requires forall i :: filenamesStart + m.nameOffset <= i < j ==> data[i] != 0
    ensures EntryName(data, filenamesStart, m) == data[filenamesStart + m.nameOffset..j]
    ensures NameEnd(data, filenamesStart, m) == j + 1
  {
    ReadUntilStopsAtFirst(data, filenamesStart + m.nameOffset, 0, j);
  }

  /**
   * Without a NUL before the end of the source the name loses its last real
   * byte instead, and an offset at or past the end gives the empty name.
   */
  lemma EntryNameWithoutNul(data: seq<Byte>, filenamesStart: nat, m: FileMeta)
    requires forall i :: filenamesStart + m.nameOffset <= i < |data| ==> data[i] != 0
    ensures filenamesStart + m.nameOffset < |data| ==>
      EntryName(data, filenamesStart, m) == data[filenamesStart + m.nameOffset..|data| - 1] &&
      NameEnd(data, filenamesStart, m) == |data|
    ensures filenamesStart + m.nameOffset >= |data| ==>
      EntryName(data, filenamesStart, m) == [] &&
      NameEnd(data, filenamesStart, m) == filenamesStart + m.nameOffset
  {
    if filenamesStart + m.nameOffset < |data| {
      ReadUntilToEnd(data, filenamesStart + m.nameOffset, 0);
    }
  }

  /**
   * `data_start` is 32 past the start when there are no entries, and
   * otherwise the cursor after the LAST entry's name, wherever that name
   * lies in the name block.
   */
  lemma ParsedDataStart(data: seq<Byte>, base: nat)
    requires Parse(data, base).Ok?
    ensures var d := Parse(data, base).value;
      var filenamesStart := base + 32 + 16 * |d.entries|;
      (d.entries == [] ==> d.dataStart == base + 32) &&
      (d.entries != [] ==> d.dataStart == NameEnd(data, filenamesStart, d.entries[|d.entries| - 1].meta))
  {
    var count, metas := ParseOk(data, base);
    assert Parse(data, base).value.entries == Entries(data, base + 32 + 16 * count as int, metas);
  }

  /** The table depends only on its own `16 * n` bytes. */
  lemma MetaTableLocal(data: seq<Byte>, other: seq<Byte>, start: nat, n: nat)
    requires start + 16 * n <= |data| && start + 16 * n <= |other|
    requires forall i :: start <= i < start + 16 * n ==> data[i] == other[i]
    ensures MetaTable(data, start, n) == MetaTable(other, start, n)
  {
    forall k: nat | k < n
      ensures MetaTable(data, start, n)[k] == MetaTable(other, start, n)[k]
    {
      assert data[start + 16 * k..start + 16 * k + 16] == other[start + 16 * k..start + 16 * k + 16];
    }
  }

  /** Names, their validity and `data_start` depend on nothing before the name block. */
  lemma NamesLocal(data: seq<Byte>, other: seq<Byte>, filenamesStart: nat, metas: seq<FileMeta>)
    requires |data| == |other|
    requires forall i :: filenamesStart <= i < |data| ==> data[i] == other[i]
    ensures ResolveNames(data, filenamesStart, metas) == ResolveNames(other, filenamesStart, metas)
    ensures DataStart(data, filenamesStart, metas) == DataStart(other, filenamesStart, metas)
  {
    forall m: FileMeta
      ensures RawName(data, filenamesStart, m) == RawName(other, filenamesStart, m)
    {
      ReadUntilLocal(data, other, filenamesStart + m.nameOffset, 0);
    }
    NamesDecodeAt(data, filenamesStart, metas);
    NamesDecodeAt(other, filenamesStart, metas);
    assert Entries(data, filenamesStart, metas) == Entries(other, filenamesStart, metas);
  }

  /**
   * The 16 opaque bytes, the two unused fields and `total_size` are never
   * checked: sources that differ only there (and before the start) parse
   * alike, up to the stored `total_size`.
   */
  lemma ParseIgnoresReservedFields(data: seq<Byte>, other: seq<Byte>, base: nat)
    requires |data| == |other| && base + 32 <= |data|
    requires data[base..base + 4] == other[base..base + 4]
    requires data[base + 20..base + 22] == other[base + 20..base + 22]
    requires forall i :: base + 32 <= i < |data| ==> data[i] == other[i]
    ensures Parse(data, base).Ok? <==> Parse(other, base).Ok?
    ensures Parse(data, base).Ok? ==>
      Parse(data, base).value.entries == Parse(other, base).value.entries &&
      Parse(data, base).value.dataStart == Parse(other, base).value.dataStart
  {
    assert ReadHeader(data, base).Ok? <==> ReadHeader(other, base).Ok?;
    if ReadHeader(data, base).Ok? {
      var count := ReadHeader(data, base).value.count;
      assert ReadHeader(other, base).value.count == count;
      var filenamesStart := base + 32 + 16 * count as int;
      if filenamesStart <= |data| {
        MetaTableLocal(data, other, base + 32, count);
        NamesLocal(data, other, filenamesStart, MetaTable(data, base + 32, count));
      }
    }
  }

  // ---------------------------------------------------------------------------
  // The writer's side: containers `Hab::new` reads back
  // ---------------------------------------------------------------------------

  /** The 32 header bytes a writer emits: `HAB0`, zeros, `count` at 20, `total_size` at 28. */
  function EncodeHeader(count: U16, totalSize: U32): (h: seq<Byte>)
    ensures |h| == 32
  {
    Magic + Zeros(16) + LeBytes16(count) + Zeros(6) + LeBytes32(totalSize)
  }

  /** The header reads back as written, whatever follows it. */
  lemma HeaderRoundTrip(count: U16, totalSize: U32, rest: seq<Byte>)
    ensures ReadHeader(EncodeHeader(count, totalSize) + rest, 0) == Ok(Header(count, totalSize))
  {
    var a := Magic + Zeros(16);
    var b := a + LeBytes16(count);
    var c := b + Zeros(6);
    var h := c + LeBytes32(totalSize);
    PrefixOfAppend(h, rest, 0, 4);
    PrefixOfAppend(c, LeBytes32(totalSize), 0, 4);
    PrefixOfAppend(b, Zeros(6), 0, 4);
    PrefixOfAppend(a, LeBytes16(count), 0, 4);
    PrefixOfAppend(Magic, Zeros(16), 0, 4);
    PrefixOfAppend(h, rest, 20, 22);
    PrefixOfAppend(c, LeBytes32(totalSize), 20, 22);
    PrefixOfAppend(b, Zeros(6), 20, 22);
    SuffixOfAppend(a, LeBytes16(count), 0, 2);
    PrefixOfAppend(h, rest, 28, 32);
    SuffixOfAppend(c, LeBytes32(totalSize), 0, 4);
    LeU16RoundTrip(count);
    LeU32RoundTrip(totalSize);
  }

  /** The table a writer emits: each record in order, the unused word zero. */
  function EncodeTable(metas: seq<FileMeta>): (t: seq<Byte>)
    ensures |t| == 16 * |metas|
  {
    if metas == [] then [] else EncodeTable(metas[..|metas| - 1]) + EncodeMeta(metas[|metas| - 1], 0)
  }

  /** Record k of an encoded table sits at offset 16k. */
  lemma {:induction false} EncodeTableAt(metas: seq<FileMeta>, k: nat)
    requires k < |metas|
    ensures EncodeTable(metas)[16 * k..16 * k + 16] == EncodeMeta(metas[k], 0)
    decreases |metas|
  {
    var init := metas[..|metas| - 1];
    if k < |init| {
      EncodeTableAt(init, k);
      PrefixOfAppend(EncodeTable(init), EncodeMeta(metas[|metas| - 1], 0), 16 * k, 16 * k + 16);
    } else {
      SuffixOfAppend(EncodeTable(init), EncodeMeta(metas[|metas| - 1], 0), 0, 16);
    }
  }

  /** Record k of a table written at `start` decodes as the k-th record written. */
  lemma TableRecordRoundTrip(data: seq<Byte>, start: nat, metas: seq<FileMeta>, k: nat)
    requires start + 16 * |metas| <= |data|
    requires data[start..start + 16 * |metas|] == EncodeTable(metas)
    requires k < |metas|
    ensures start + 16 * k + 16 <= |data|
    ensures DecodeMeta(data[start + 16 * k..start + 16 * k + 16]) == metas[k]
  {
    RecordOfRegion(data, start, EncodeTable(metas), |metas|, k);
    EncodeTableAt(metas, k);
    DecodeEncodeMeta(metas[k], 0);
  }

  /** A table whose every record decodes as `metas` reads as `metas`. */
  lemma MetaTableOf(data: seq<Byte>, start: nat, metas: seq<FileMeta>)
    requires start + 16 * |metas| <= |data|
    requires forall k | 0 <= k < |metas| :: DecodeMeta(data[start + 16 * k..start + 16 * k + 16]) == metas[k]
    ensures MetaTable(data, start, |metas|) == metas
  {
  }

  /** A table written at `start` reads back as the records written. */
  lemma TableRoundTrip(data: seq<Byte>, start: nat, metas: seq<FileMeta>)
    requires start + 16 * |metas| <= |data|
    requires data[start..start + 16 * |metas|] == EncodeTable(metas)
    ensures ReadTable(data, start, |metas|) == Ok(metas)
  {
    forall k | 0 <= k < |metas|
      ensures DecodeMeta(data[start + 16 * k..start + 16 * k + 16]) == metas[k]
    {
      TableRecordRoundTrip(data, start, metas, k);
    }
    MetaTableOf(data, start, metas);
  }

  /**
   * A container with one entry: the header, the record {name 0, data 0,
   * size |payload|}, the name and its NUL, then the payload.
   */
  function OneEntryContainer(name: seq<Byte>, payload: seq<Byte>, totalSize: U32): seq<Byte>
    requires |payload| < 0x1_0000_0000
  {
    EncodeHeader(1, totalSize) + (EncodeTable([FileMeta(0, 0, |payload|)]) + (name + [0] + payload))
  }

  /** The name block of a one-entry container holds the name, then a NUL. */
  lemma OneEntryName(name: seq<Byte>, payload: seq<Byte>, totalSize: U32)
    requires |payload| < 0x1_0000_0000
    requires forall i :: 0 <= i < |name| ==> name[i] != 0
    ensures EntryName(OneEntryContainer(name, payload, totalSize), 48, FileMeta(0, 0, |payload|)) == name
    ensures NameEnd(OneEntryContainer(name, payload, totalSize), 48, FileMeta(0, 0, |payload|)) == 49 + |name|
  {
    var data := OneEntryContainer(name, payload, totalSize);
    var block := name + [0] + payload;
    var tail := EncodeTable([FileMeta(0, 0, |payload|)]) + block;
    assert data == EncodeHeader(1, totalSize) + tail;
    assert forall i :: 48 <= i < |data| ==> data[i] == block[i - 48];
    EntryNameUpToNul(data, 48, FileMeta(0, 0, |payload|), 48 + |name|);
    SuffixOfAppend(EncodeHeader(1, totalSize), tail, 16, 16 + |name|);
    SuffixOfAppend(EncodeTable([FileMeta(0, 0, |payload|)]), block, 0, |name|);
    PrefixOfAppend(name + [0], payload, 0, |name|);
    PrefixOfAppend(name, [0], 0, |name|);
  }

  /** The payload of a one-entry container is its last |payload| bytes. */
  lemma OneEntryPayload(name: seq<Byte>, payload: seq<Byte>, totalSize: U32)
    requires |payload| < 0x1_0000_0000
    ensures Available(OneEntryContainer(name, payload, totalSize), 49 + |name|, |payload|) == payload
  {
    var data := OneEntryContainer(name, payload, totalSize);
    var front := EncodeHeader(1, totalSize) + EncodeTable([FileMeta(0, 0, |payload|)]) + (name + [0]);
    assert data == front + payload;
    SuffixOfAppend(front, payload, 0, |payload|);
  }

  /**
   * A one-entry container whose name has no NUL and is valid UTF-8 reads
   * back as that entry, with its payload right after the name.
   */
  lemma OneEntryRoundTrip(name: seq<Byte>, payload: seq<Byte>, totalSize: U32)
    requires |payload| < 0x1_0000_0000
    requires ValidUtf8(name) && forall i :: 0 <= i < |name| ==> name[i] != 0
    ensures Parse(OneEntryContainer(name, payload, totalSize), 0) ==
      Ok(Directory([FileEntry(name, FileMeta(0, 0, |payload|))], totalSize, 49 + |name|))
    ensures Available(OneEntryContainer(name, payload, totalSize), 49 + |name|, |payload|) == payload
  {
    var data := OneEntryContainer(name, payload, totalSize);
    var m := FileMeta(0, 0, |payload|);
    var tail := EncodeTable([m]) + (name + [0] + payload);
    HeaderRoundTrip(1, totalSize, tail);
    SuffixOfAppend(EncodeHeader(1, totalSize), tail, 0, 16);
    PrefixOfAppend(EncodeTable([m]), name + [0] + payload, 0, 16);
    TableRoundTrip(data, 32, [m]);
    OneEntryName(name, payload, totalSize);
    assert [m][..0] == [];
    assert NamesDecode(data, 48, [m]);
    assert Entries(data, 48, [m]) == [FileEntry(name, m)];
    ParseLayers(data, 0, Header(1, totalSize), [m], 48, [FileEntry(name, m)]);
    OneEntryPayload(name, payload, totalSize);
  }

  /** An empty directory: no entries, and the payload area starts right after the header. */
  lemma EmptyRoundTrip(totalSize: U32, rest: seq<Byte>)
    ensures Parse(EncodeHeader(0, totalSize) + rest, 0) == Ok(Directory([], totalSize, 32))
  {
    var data := EncodeHeader(0, totalSize) + rest;
    HeaderRoundTrip(0, totalSize, rest);
    assert MetaTable(data, 32, 0) == [];
    assert Entries(data, 32, []) == [];
    ParseLayers(data, 0, Header(0, totalSize), [], 32, []);
  }

  // ---------------------------------------------------------------------------
  // The `HabReader` helpers beyond plain `read_exact`, `read_u16`, `read_u32`
  // ---------------------------------------------------------------------------

  /** `read_magic`: four bytes that must be `HAB0`. */
  method ReadMagic(r: ByteReader) returns (res: Result<()>)
    modifies r
    ensures old(r.pos) + 4 > |r.data| ==> res == Err(UnexpectedEof) && r.pos == Max(old(r.pos), |r.data|)
    ensures old(r.pos) + 4 <= |r.data| ==>
      r.pos == old(r.pos) + 4 &&
      res == (if r.data[old(r.pos)..old(r.pos) + 4] == Magic then Ok(()) else Err(BadMagic))
  {
    var buf :- r.ReadExact(|Magic|);
    if buf != Magic {
      return Err(BadMagic);
    }
    return Ok(());
  }

  /** A record's three fields are the little-endian words at its offsets 0, 4 and 8. */
  lemma DecodeMetaAt(data: seq<Byte>, p: nat)
    requires p + 16 <= |data|
    ensures DecodeMeta(data[p..p + 16]) ==
      FileMeta(LeU32(data[p..p + 4]), LeU32(data[p + 4..p + 8]), LeU32(data[p + 8..p + 12]))
  {
    SliceOfSlice(data, p, p + 16, 0, 4);
    SliceOfSlice(data, p, p + 16, 4, 8);
    SliceOfSlice(data, p, p + 16, 8, 12);
  }

  /** `FileMeta::from_reader` (and the identical `read_file_entry`): one 16-byte record. */
  method ReadFileMeta(r: ByteReader) returns (res: Result<FileMeta>)
    modifies r
    ensures old(r.pos) + 16 <= |r.data| ==>
      res == Ok(DecodeMeta(r.data[old(r.pos)..old(r.pos) + 16])) && r.pos == old(r.pos) + 16
    ensures old(r.pos) + 16 > |r.data| ==>
      res == Err(UnexpectedEof) && r.pos == Max(old(r.pos), |r.data|)
  {
    ghost var p := r.pos;
    var nameOffset :- r.ReadU32();
    var dataOffset :- r.ReadU32();
    var dataSize :- r.ReadU32();
    var unknown :- r.ReadU32();
    DecodeMetaAt(r.data, p);
    res := Ok(FileMeta(nameOffset, dataOffset, dataSize));
  }

  // ---------------------------------------------------------------------------
  // `Hab::new`, in its three phases
  // ---------------------------------------------------------------------------

  /** The header reads of `Hab::new`: magic, 16 bytes, count, a `u16`, a `u32`, `total_size`. */
  method ReadHeaderFields(reader: ByteReader) returns (res: Result<Header>)
    modifies reader
    ensures res == ReadHeader(reader.data, old(reader.pos))
    ensures res.Ok? ==> reader.pos == old(reader.pos) + 32
  {
    var magic :- ReadMagic(reader);
    var reserved :- reader.ReadExact(16);
    var count :- reader.ReadU16();
    var unknown16 :- reader.ReadU16();
    var unknown32 :- reader.ReadU32();
    var totalSize :- reader.ReadU32();
    return Ok(Header(count, totalSize));
  }

  /** Appending the next record to the table decoded so far. */
  lemma MetaTableSnoc(data: seq<Byte>, start: nat, i: nat)
    requires start + 16 * (i + 1) <= |data|
    ensures MetaTable(data, start, i + 1) == MetaTable(data, start, i) + [DecodeMeta(data[start + 16 * i..start + 16 * i + 16])]
  {
  }

  /** The table loop of `Hab::new`: `count` records, pushed in order. */
  method ReadTableRecords(reader: ByteReader, count: U16) returns (res: Result<seq<FileMeta>>)
    requires reader.pos <= |reader.data|
    modifies reader
    ensures res == ReadTable(reader.data, old(reader.pos), count)
    ensures res.Ok? ==> reader.pos == old(reader.pos) + 16 * count as int
  {
    ghost var start := reader.pos;
    var metas: seq<FileMeta> := [];
    var i := 0;
    while i < count
      invariant i <= count
      invariant reader.pos == start + 16 * i <= |reader.data|
      invariant metas == MetaTable(reader.data, start, i)
    {
      var meta :- ReadFileMeta(reader);
      MetaTableSnoc(reader.data, start, i);
      metas := metas + [meta];
      i := i + 1;
    }
    return Ok(metas);
  }

  /** One name of `Hab::new`: seek to it, `read_until(0)`, pop the last byte. */
  method ReadEntryName(reader: ByteReader, filenamesStart: nat, meta: FileMeta) returns (name: seq<Byte>)
    modifies reader
    ensures name == EntryName(reader.data, filenamesStart, meta)
    ensures reader.pos == NameEnd(reader.data, filenamesStart, meta)
  {
    reader.Seek(filenamesStart + meta.nameOffset);
    var raw := reader.ReadUntilDelim(0);
    name := Pop(raw);
  }

  /** Naming one more record extends the entries and the decoding check by that record. */
  lemma NamesSnoc(data: seq<Byte>, filenamesStart: nat, metas: seq<FileMeta>, k: nat)
    requires k < |metas|
    ensures Entries(data, filenamesStart, metas[..k + 1]) ==
      Entries(data, filenamesStart, metas[..k]) + [FileEntry(EntryName(data, filenamesStart, metas[k]), metas[k])]
    ensures NamesDecode(data, filenamesStart, metas[..k + 1]) <==>
      NamesDecode(data, filenamesStart, metas[..k]) && ValidUtf8(EntryName(data, filenamesStart, metas[k]))
    ensures DataStart(data, filenamesStart, metas[..k + 1]) == NameEnd(data, filenamesStart, metas[k])
  {
    assert metas[..k + 1][..k] == metas[..k];
  }

  /** One name that does not decode makes the whole directory fail. */
  lemma NameFails(data: seq<Byte>, filenamesStart: nat, metas: seq<FileMeta>, k: nat)
    requires k < |metas| && !ValidUtf8(EntryName(data, filenamesStart, metas[k]))
    ensures !NamesDecode(data, filenamesStart, metas)
  {
    NamesDecodeAt(data, filenamesStart, metas);
  }

  /** The name loop of `Hab::new`: each record's name in table order, checked as UTF-8. */
  method ReadNames(reader: ByteReader, filenamesStart: nat, metas: seq<FileMeta>) returns (res: Result<seq<FileEntry>>)
    requires reader.pos == filenamesStart
    modifies reader
    ensures res == ResolveNames(reader.data, filenamesStart, metas)
    ensures res.Ok? ==> reader.pos == DataStart(reader.data, filenamesStart, metas)
  {
    ghost var data := reader.data;
    var entries: seq<FileEntry> := [];
    var k := 0;
    while k < |metas|
      invariant k <= |metas|
      invariant entries == Entries(data, filenamesStart, metas[..k])
      invariant NamesDecode(data, filenamesStart, metas[..k])
      invariant reader.pos == DataStart(data, filenamesStart, metas[..k])
    {
      var name := ReadEntryName(reader, filenamesStart, metas[k]);
      if !ValidUtf8(name) {
        NameFails(data, filenamesStart, metas, k);
        return Err(InvalidUtf8);
      }
      NamesSnoc(data, filenamesStart, metas, k);
      entries := entries + [FileEntry(name, metas[k])];
      k := k + 1;
    }
    assert metas[..k] == metas;
    return Ok(entries);
  }

  // ---------------------------------------------------------------------------
  // The container and its entries
  // ---------------------------------------------------------------------------

  /** `Hab<R>`: the reader it owns, the entries in table order, `total_size`, `data_start`. */
  class Hab {
    const reader: ByteReader
    const entries: seq<FileEntry>
    const totalSize: U32
    const dataStart: nat
    /** Where the cursor stood when `Hab::new` began. */
    ghost const base: nat

    /** The fields are exactly what parsing the reader's contents from `base` yields. */
    ghost predicate Valid()
    {
      Parse(reader.data, base) == Ok(Directory(entries, totalSize, dataStart))
    }

    constructor Init(reader: ByteReader, entries: seq<FileEntry>, totalSize: U32, dataStart: nat, ghost base: nat)
      ensures this.reader == reader && this.entries == entries && this.totalSize == totalSize
      ensures this.dataStart == dataStart && this.base == base
    {
      this.reader := reader;
      this.entries := entries;
      this.totalSize := totalSize;
      this.dataStart := dataStart;
      this.base := base;
    }

    /**
     * `Hab::new`: read the header, then the table record by record, then
     * seek to each name in table order; `data_start` is where the last name
     * read left the cursor.
     */
    static method New(reader: ByteReader) returns (res: Result<Hab>)
      modifies reader
      ensures res.Ok? <==> Parse(reader.data, old(reader.pos)).Ok?
      ensures res.Err? ==> Parse(reader.data, old(reader.pos)) == Err(res.error)
      ensures res.Ok? ==> fresh(res.value) && res.value.reader == reader &&
                          res.value.base == old(reader.pos) && res.value.Valid()
      ensures res.Ok? ==> reader.pos == res.value.dataStart
    {
      ghost var base := reader.pos;
      var header :- ReadHeaderFields(reader);
      var metas :- ReadTableRecords(reader, header.count);
      var filenamesStart := reader.pos;
      var entries :- ReadNames(reader, filenamesStart, metas);
      var dataStart := reader.pos;
      var hab := new Hab.Init(reader, entries, header.totalSize, dataStart, base);
      return Ok(hab);
    }

    /** `num_entries`: the entry count declared at offset 20 of the header. */
    function NumEntries(): (n: nat)
      requires Valid()
      ensures base + 22 <= |reader.data|
      ensures n == LeU16(reader.data[base + 20..base + 22])
    {
      ParsedCount(reader.data, base);
      |entries|
    }

    /** The bytes entry `index` yields when read to its end. */
    ghost function EntryPayload(index: nat): seq<Byte>
      requires index < |entries|
    {
      Available(reader.data, dataStart + entries[index].meta.dataOffset, entries[index].meta.dataSize)
    }

    /** Entries of a valid directory carry names that decode and contain no NUL. */
    lemma ParsedNamesDecode(index: nat)
      requires Valid() && index < |entries|
      ensures ValidUtf8(entries[index].name)
      ensures forall i :: 0 <= i < |entries[index].name| ==> entries[index].name[i] != 0
    {
      var count, metas := ParseOk(reader.data, base);
      EntryNameDecodes(reader.data, base + 32 + 16 * count as int, metas, index);
    }

    /**
     * `get_file_by_index`: an index past the last entry is an error and
     * leaves the cursor alone; otherwise a view that starts at
     * `data_start + data_offset` and will yield the entry's payload.
     */
    method GetFileByIndex(index: nat) returns (res: Result<HabFile>)
      requires Valid()
      modifies reader
      ensures index >= |entries| ==> res == Err(InvalidIndex) && reader.pos == old(reader.pos)
      ensures index < |entries| ==>
        res.Ok? && fresh(res.value) && res.value.reader == reader &&
        res.value.entry == entries[index] && res.value.Valid() &&
        res.value.limit == entries[index].meta.dataSize &&
        reader.pos == dataStart + entries[index].meta.dataOffset &&
        res.value.Pending() == EntryPayload(index)
    {
      if index >= |entries| {
        return Err(InvalidIndex);
      }
      ParsedNamesDecode(index);
      var f := new HabFile(reader, entries[index], dataStart);
      return Ok(f);
    }

    /**
     * Open entry `index` and read it to its end (what `io::copy` does with
     * the view), through a buffer of `bufLen` bytes.
     */
    method Extract(index: nat, bufLen: nat) returns (res: Result<seq<Byte>>)
      requires Valid() && bufLen > 0
      modifies reader
      ensures index >= |entries| ==> res == Err(InvalidIndex)
      ensures index < |entries| ==> res == Ok(EntryPayload(index))
      ensures index < |entries| ==>
        reader.pos == dataStart + entries[index].meta.dataOffset + |res.value|
    {
      var f :- GetFileByIndex(index);
      var bytes := f.Drain(bufLen);
      return Ok(bytes);
    }

    /** Re-opening an entry re-seeks, so a second extraction yields the same bytes. */
    method ExtractTwice(index: nat, bufLen: nat) returns (first: Result<seq<Byte>>, second: Result<seq<Byte>>)
      requires Valid() && bufLen > 0
      modifies reader
      ensures first == second
      ensures first.Ok? <==> index < |entries|
    {
      first := Extract(index, bufLen);
      second := Extract(index, bufLen);
    }
  }

  /** `HabFile`: the entry and a `Take` over the shared reader. */
  class HabFile {
    const reader: ByteReader
    const entry: FileEntry
    /** `Take`'s remaining count. */
    var limit: nat
    /** `data_start + data_offset`, where the view began. */
    ghost const start: nat

    /** The entry is one `Hab::new` produced, so its name decodes, and the view is positioned. */
    ghost predicate Valid()
      reads this, reader
    {
      NameDecodes() && Positioned()
    }

    /** Bytes handed out so far are `data_size - limit`, all taken from `start` on. */
    ghost predicate Positioned()
      reads this, reader
    {
      limit <= entry.meta.dataSize &&
      reader.pos == start + (entry.meta.dataSize - limit)
    }

    /** The entry's name is one `Hab::new` accepted: valid UTF-8, without NUL bytes. */
    ghost predicate NameDecodes()
    {
      ValidUtf8(entry.name) && forall i :: 0 <= i < |entry.name| ==> entry.name[i] != 0
    }

    /** What reading this view to its end will still yield. */
    ghost function Pending(): seq<Byte>
      reads this, reader
    {
      Available(reader.data, reader.pos, limit)
    }

    /** `HabFile::new`: seek to `data_start + data_offset` and bound reads by `data_size`. */
    constructor (reader: ByteReader, entry: FileEntry, dataStart: nat)
      requires ValidUtf8(entry.name) && forall i :: 0 <= i < |entry.name| ==> entry.name[i] != 0
      modifies reader
      ensures this.reader == reader && this.entry == entry && start == dataStart + entry.meta.dataOffset
      ensures limit == entry.meta.dataSize && reader.pos == start && Valid()
      ensures Pending() == Available(reader.data, dataStart + entry.meta.dataOffset, entry.meta.dataSize)
    {
      this.reader := reader;
      this.entry := entry;
      this.limit := entry.meta.dataSize;
      this.start := dataStart + entry.meta.dataOffset;
      new;
      reader.Seek(dataStart + entry.meta.dataOffset);
    }

    /** `file_name`: the entry's name, valid UTF-8 without NUL bytes. */
    function FileName(): (name: seq<Byte>)
      reads this, reader
      requires Valid()
      ensures ValidUtf8(name) && forall i :: 0 <= i < |name| ==> name[i] != 0
    {
      entry.name
    }

    /**
     * `read` through `Take`: at most `min(bufLen, limit)` bytes, the next
     * ones of the payload; nothing once the limit is spent or the source
     * has ended.
     */
    method Read(bufLen: nat) returns (r: seq<Byte>)
      requires Positioned()
      modifies this, reader
      ensures Positioned()
      ensures |r| <= Min(bufLen, old(limit))
      ensures r == Available(reader.data, old(reader.pos), Min(bufLen, old(limit)))
      ensures limit == old(limit) - |r| && reader.pos == old(reader.pos) + |r|
      ensures r == [] && bufLen > 0 ==> Pending() == old(Pending()) == []
      ensures r != [] ==> old(Pending()) == r + Pending()
    {
      if limit == 0 {
        return [];
      }
      BoundedReadStep(reader.data, reader.pos, limit, bufLen);
      r := reader.Read(Min(bufLen, limit));
      limit := limit - |r|;
    }

    /** Read the view until a read returns nothing: exactly what was pending. */
    method Drain(bufLen: nat) returns (out: seq<Byte>)
      requires Positioned() && bufLen > 0
      modifies this, reader
      ensures Positioned()
      ensures out == old(Pending()) && Pending() == []
      ensures |out| <= old(limit)
      ensures reader.pos == old(reader.pos) + |out| && limit == old(limit) - |out|
    {
      ghost var pending := Pending();
      AvailableBounds(reader.data, reader.pos, limit);
      out := [];
      var done := false;
      while !done
        invariant Positioned()
        invariant pending == out + Pending()
        invariant reader.pos == old(reader.pos) + |out| && limit == old(limit) - |out|
        invariant done ==> Pending() == []
        decreases limit, if done then 0 else 1
      {
        var chunk := Read(bufLen);
        if chunk == [] {
          done := true;
        } else {
          assert out + (chunk + Pending()) == (out + chunk) + Pending();
          out := out + chunk;
        }
      }
    }
  }
}
