# HAB containers and texture banks, modelled in Dafny

The project models two byte-level readers from a game-asset toolkit:

- **`hab_tool`** reads a HAB container. A container has four parts:
  - a 32-byte header: the magic `HAB0`, 16 opaque bytes, a little-endian `u16` entry count at offset 20, a `u16` and a `u32` that are read and dropped, and a `u32` `total_size` at offset 28;
  - a table of 16-byte records, each holding a name offset, a data offset, a data size and an unused `u32`;
  - a block of NUL-terminated names, addressed from the end of the table;
  - the payloads, addressed from `data_start`. This is the cursor position after the last name read, in table order.

  `get_file_by_index` opens a view of an entry's payload. The view seeks to `data_start + data_offset` and is bounded by `io::Take` to `data_size` bytes.
- **`pixelconv`** reads a texture bank. Its `.header` file is a table of 16-byte texture records, and the file length fixes how many there are (`size / 16`). Each record gives a width, a height and an absolute offset into the `.raw` file. At that offset, each pixel takes two bytes. The four nibbles of those two bytes are scaled to 8 bits and emitted as r, g, b, a.

Files:

- `bytes.dfy` (`Bytes`): fixed-width integers, little-endian encoding and decoding with both round trips, nibbles, UTF-8 well-formedness as `String::from_utf8` checks it (the Unicode Standard, Table 3-7), and small slice lemmas.
- `stream.dfy` (`Stream`): the error kinds, the `Result` type and `ByteReader`. `ByteReader` is the seekable source (`BufReader<File>` or `Cursor`) as constant contents plus a cursor, with `read_exact`, `read_u8`/`u16`/`u32`, `read_until`, `seek` and a bounded `read`.
- `hab.dfy` (`HabTool`) has four parts:
  - `Parse`, the specification of `Hab::new`, written layer by layer: header, table, names, `data_start`;
  - the reader methods `ReadHeaderFields`, `ReadTableRecords` and `ReadNames`, which read field by field through the cursor and are each proved equal to one layer of `Parse`. `Hab.New` composes them and is proved equal to `Parse`;
  - the class `HabFile`, the bounded view of one entry, proved against the bytes still pending in its `Take`;
  - writer round trips. A header written for any count reads back, and so does a table written for any list of records. A whole container reads back when it has zero entries, or one entry with its name and payload.
- `texture.dfy` (`PixelConv`) has four parts:
  - `TextureInfo` and its encoding;
  - `HeaderTable`, the specification of `all_from_reader`;
  - `Decode4444`, the specification of `read_pixel_data`;
  - the reader methods, proved against these specifications.

`scale_4bit_to_8bit` is `f32` arithmetic truncated to `u8`. Here it is a parameter of type `Scale`, a table of 16 bytes, one for each nibble value. The nibble is always in 0..15, so the table is indexed exactly as the function is called.

## Model

| member | source | states |
|---|---|---|
| Bytes.LeU16RoundTrip | hab_tool/src/main.rs:208-214 | decoding the two little-endian bytes of a `u16` gives the value back |
| Bytes.LeBytes16RoundTrip | hab_tool/src/main.rs:208-214 | every 2-byte string is the encoding of the `u16` it decodes to |
| Bytes.LeU32RoundTrip | hab_tool/src/main.rs:200-206 | decoding the four little-endian bytes of a `u32` gives the value back |
| Bytes.LeBytes32RoundTrip | hab_tool/src/main.rs:200-206 | every 4-byte string is the encoding of the `u32` it decodes to |
| Bytes.NibbleSplit | pixelconv/src/main.rs:205-211 | `16 * high + low` is the byte, so the two nibbles determine the byte |
| Bytes.SequenceLength | hab_tool/src/main.rs:75 | a well-formed UTF-8 sequence is 1 to 4 bytes long and lies within the name |
| Bytes.AsciiIsUtf8 | hab_tool/src/main.rs:75 | every all-ASCII name passes `String::from_utf8` |
| Bytes.InvalidLeadByte | hab_tool/src/main.rs:75 | a name starting with a continuation byte or with 0xC0, 0xC1 or 0xF5..0xFF is rejected |
| Stream.AvailableBounds | hab_tool/src/main.rs:120-132 | a bounded read yields at most its bound, falls short only at the end of the source, and reads the bytes in place |
| Stream.AvailableSplit | hab_tool/src/main.rs:130-132 | reading k bytes and then at most n - k more yields the same bytes as one read of at most n |
| Stream.BoundedReadStep | hab_tool/src/main.rs:120-132 | one `Take` read yields at most `min(buf, remaining)` bytes; an empty read means nothing is left; otherwise what was pending is this chunk followed by what is pending now |
| Stream.ReadUntilInPlace | hab_tool/src/main.rs:72 | `read_until` consumes the bytes in place, stays within the source, and reads nothing only at the end of the source |
| Stream.ReadUntilStops | hab_tool/src/main.rs:72 | `read_until(0)` consumes no delimiter except possibly its last byte, and ends on a delimiter unless the source ended |
| Stream.ReadUntilStopsAtFirst | hab_tool/src/main.rs:72 | with a delimiter at j and none before it, `read_until` consumes exactly the bytes up to and including j |
| Stream.ReadUntilToEnd | hab_tool/src/main.rs:72 | with no delimiter left, `read_until` consumes the rest of the source |
| Stream.ReadUntilLocal | hab_tool/src/main.rs:72 | `read_until` depends only on the bytes from the cursor on: equal-length sources that agree there give the same bytes |
| Stream.PopPush | hab_tool/src/main.rs:73 | `pop` removes exactly the last byte (pushing it back restores the name), and leaves an empty name empty |
| Stream.ByteReader.ReadExact | hab_tool/src/main.rs:192-198 | yields exactly the next n bytes and advances by n; otherwise `UnexpectedEof`, with the cursor at the end of the source, or left where it was if it was already past the end |
| Stream.ByteReader.ReadU8 | pixelconv/src/main.rs:206 | yields the next byte and advances by 1; at the end of the source, `UnexpectedEof` and no move |
| Stream.ByteReader.ReadU16 | hab_tool/src/main.rs:208-214 | yields the little-endian value of the next 2 bytes and advances by exactly 2; fails if fewer remain |
| Stream.ByteReader.ReadU32 | hab_tool/src/main.rs:200-206 | yields the little-endian value of the next 4 bytes and advances by exactly 4; fails if fewer remain |
| Stream.ByteReader.ReadUntilDelim | hab_tool/src/main.rs:72 | the loop consumes exactly `ReadUntil`'s bytes and leaves the cursor just after them |
| Stream.ByteReader.Seek | hab_tool/src/main.rs:71 | the cursor is moved to the absolute position given |
| Stream.ByteReader.SeekEnd | pixelconv/src/main.rs:144 | yields the length of the source and leaves the cursor there |
| Stream.ByteReader.Read | hab_tool/src/main.rs:130-132 | yields the next bytes, at most the number asked for and fewer only at the end of the source, and advances past them |
| HabTool.EncodeMeta | hab_tool/src/main.rs:157-171 | a table record is 16 bytes |
| HabTool.MetaTable | hab_tool/src/main.rs:56-62 | the table holds exactly `entry_count` records |
| HabTool.DecodeEncodeMeta | hab_tool/src/main.rs:157-171 | a record decodes to its three fields, whatever its fourth word holds |
| HabTool.EncodeDecodeMeta | hab_tool/src/main.rs:157-171 | every byte of a record except the dropped fourth word belongs to a field |
| HabTool.NamesDecodeAt | hab_tool/src/main.rs:69-80 | parsing accepts the names exactly when every entry's name is valid UTF-8 |
| HabTool.ParseOk | hab_tool/src/main.rs:49-90 | a successful parse read a valid header, a complete table at offset 32 and names that all decode; its entries, `total_size` and `data_start` are those layers' results |
| HabTool.ParseLayers | hab_tool/src/main.rs:49-90 | a valid header, a complete table and decodable names make the parse succeed with exactly those entries and that `data_start` |
| HabTool.ParseChecksMagic | hab_tool/src/main.rs:181-190 | a parse succeeds only if the first four bytes are `HAB0`; any other four bytes give `BadMagic` |
| HabTool.ParsedCount | hab_tool/src/main.rs:52 | on success, the number of entries is the `u16` at offset 20 |
| HabTool.EntryNameDecodes | hab_tool/src/main.rs:72-75 | every resolved name is valid UTF-8 and contains no NUL |
| HabTool.ParsedRecordAt | hab_tool/src/main.rs:56-62 | entry k's metadata is the record at offset `32 + 16k`, so entries keep table order |
| HabTool.TruncatedTableFails | hab_tool/src/main.rs:58-62 | a table that claims more records than the source holds fails with `UnexpectedEof` |
| HabTool.EntryNameHasNoNul | hab_tool/src/main.rs:72-73 | a name never contains a NUL, whether or not a terminator was found |
| HabTool.EntryNameUpToNul | hab_tool/src/main.rs:71-73 | a name runs from `filenames_start + name_offset` up to, not including, the first NUL; the cursor stops just after that NUL |
| HabTool.EntryNameWithoutNul | hab_tool/src/main.rs:71-73 | with no NUL before the end, the name loses its last real byte; at or past the end, the name is empty |
| HabTool.ParsedDataStart | hab_tool/src/main.rs:66-82 | `filenames_start` is `32 + 16 * entry_count`; `data_start` is that with no entries, and otherwise the cursor after the last entry's name |
| HabTool.MetaTableLocal | hab_tool/src/main.rs:56-62 | the table depends only on its own `16 * count` bytes: sources agreeing there give the same records |
| HabTool.NamesLocal | hab_tool/src/main.rs:69-82 | name resolution and `data_start` depend only on the bytes from `filenames_start` on |
| HabTool.ParseIgnoresReservedFields | hab_tool/src/main.rs:51-55 | the 16 opaque bytes, the two unused header fields and `total_size` never decide success, entries or `data_start` |
| HabTool.HeaderRoundTrip | hab_tool/src/main.rs:50-55 | a header written with a count and `total_size` reads back as exactly those |
| HabTool.TableRecordRoundTrip | hab_tool/src/main.rs:157-171 | record k of a written table decodes as the k-th record written |
| HabTool.TableRoundTrip | hab_tool/src/main.rs:56-62 | a written table reads back as the records written, in order |
| HabTool.OneEntryName | hab_tool/src/main.rs:71-73 | in a one-entry container, the name written before the NUL is the name resolved; the cursor ends just after the NUL |
| HabTool.OneEntryPayload | hab_tool/src/main.rs:117-120 | the entry's view yields exactly the payload written |
| HabTool.OneEntryRoundTrip | hab_tool/src/main.rs:49-123 | a one-entry container with a valid name parses to that one entry, with `data_start` just after the name, and the entry yields its payload |
| HabTool.EmptyRoundTrip | hab_tool/src/main.rs:58-89 | a container with zero entries parses to no entries and `data_start` 32 |
| HabTool.ReadMagic | hab_tool/src/main.rs:181-190 | consumes four bytes; `BadMagic` unless they are `HAB0`; `UnexpectedEof` if fewer remain |
| HabTool.ReadFileMeta | hab_tool/src/main.rs:157-171 | consumes exactly 16 bytes and yields `DecodeMeta` of them; fails with `UnexpectedEof` if fewer remain |
| HabTool.ReadHeaderFields | hab_tool/src/main.rs:50-55 | the header reads yield `ReadHeader` of the source and leave the cursor 32 bytes on |
| HabTool.ReadTableRecords | hab_tool/src/main.rs:56-62 | the record loop yields `ReadTable` of the source and leaves the cursor `16 * count` bytes on |
| HabTool.ReadEntryName | hab_tool/src/main.rs:70-73 | seek, `read_until(0)` and `pop` yield `EntryName` and leave the cursor at `NameEnd` |
| HabTool.NamesSnoc | hab_tool/src/main.rs:69-80 | resolving one more name appends one entry, needs that name to decode, and moves `data_start` to after that name |
| HabTool.NameFails | hab_tool/src/main.rs:75 | one undecodable name makes the whole name phase fail |
| HabTool.ReadNames | hab_tool/src/main.rs:66-82 | the name loop yields `ResolveNames` of the source and, on success, leaves the cursor at `DataStart` |
| HabTool.Hab.New | hab_tool/src/main.rs:49-90 | succeeds exactly when `Parse` does, failing with the same error; the new `Hab`'s fields are what `Parse` yields, and the cursor is left at `data_start` |
| HabTool.Hab.NumEntries | hab_tool/src/main.rs:92-94 | the entry count is the `u16` at offset 20 of the header |
| HabTool.Hab.ParsedNamesDecode | hab_tool/src/main.rs:75 | every stored name is valid UTF-8 without NUL |
| HabTool.Hab.GetFileByIndex | hab_tool/src/main.rs:96-100 | an index past the last entry gives `InvalidIndex` and no move; otherwise a fresh view of that entry, with the cursor at `data_start + data_offset` and the entry's payload pending |
| HabTool.Hab.Extract | hab_tool/src/main.rs:96-132 | reading an opened entry to its end yields exactly its bounded payload, and leaves the cursor just after the bytes read |
| HabTool.Hab.ExtractTwice | hab_tool/src/main.rs:96-123 | opening the same index twice yields the same bytes, because each open re-seeks |
| HabTool.HabFile.constructor | hab_tool/src/main.rs:116-123 | seeks to `data_start + data_offset`; `remaining` starts at `data_size`; the entry's name is one `Hab::new` resolved |
| HabTool.HabFile.FileName | hab_tool/src/main.rs:112-114 | the name of an open view is valid UTF-8 without NUL, because the view's invariant carries it from `Hab::new` |
| HabTool.HabFile.Read | hab_tool/src/main.rs:130-132 | yields at most `min(buf, remaining)` bytes, the next ones of the payload; `remaining` drops by what was read; an empty read means nothing is pending |
| HabTool.HabFile.Drain | hab_tool/src/main.rs:130-132 | reading until a read is empty yields exactly what was pending, never more than `data_size` bytes; the cursor and `remaining` move by exactly the bytes yielded |
| PixelConv.EncodeInfo | pixelconv/src/main.rs:159-170 | a texture record is 16 bytes |
| PixelConv.DecodeEncodeInfo | pixelconv/src/main.rs:159-170 | a record written field by field (width@0, height@2, format@4, unk0@5, unk1@6, offset@8, id@12, unk4@14) decodes to the same fields |
| PixelConv.EncodeDecodeInfo | pixelconv/src/main.rs:159-170 | all 16 bytes are fields: re-encoding a decoded record gives it back |
| PixelConv.HeaderTable | pixelconv/src/main.rs:144-157 | a header file holds exactly `size / 16` records |
| PixelConv.HeaderTableIgnoresTail | pixelconv/src/main.rs:144-147 | the trailing `size % 16` bytes do not affect the records |
| PixelConv.TableRecordRoundTrip | pixelconv/src/main.rs:150-170 | record k of a written header file, with fewer than 16 stray bytes after it, reads back as the k-th record written |
| PixelConv.HeaderRoundTrip | pixelconv/src/main.rs:140-170 | a header file written for a list of records, with fewer than 16 stray bytes after it, reads back as that list |
| PixelConv.Decode4444 | pixelconv/src/main.rs:185-202 | n pixels give exactly `4n` bytes, the size `RgbaImage::from_vec` is given |
| PixelConv.Decode4444At | pixelconv/src/main.rs:190-198 | output bytes `4k..4k+4` are the pixel built from input bytes `2k` and `2k+1` |
| PixelConv.Decode4444Channels | pixelconv/src/main.rs:192-211 | for pixel k: r is the scaled low nibble of byte `2k+1`, g the high and b the low nibble of byte `2k`, a the high nibble of byte `2k+1` |
| PixelConv.PixelInjective | pixelconv/src/main.rs:192-211 | with a one-to-one scale, a pixel's four channels determine its two stored bytes |
| PixelConv.TextureShape | pixelconv/src/main.rs:179-191 | a decoded image has the record's width and height and exactly `4 * width * height` bytes, so `from_vec` accepts it; `pixel_format` plays no part |
| PixelConv.TextureFits | pixelconv/src/main.rs:176-202 | a texture decodes exactly when `offset + 2 * width * height` is within the raw file, or it has no pixels |
| PixelConv.FromReader | pixelconv/src/main.rs:159-170 | consumes exactly 16 bytes and yields `DecodeInfo` of them; fails with `UnexpectedEof` if fewer remain |
| PixelConv.AllFromReader | pixelconv/src/main.rs:140-157 | yields `HeaderTable` of the whole source, read from offset 0, and never fails; the cursor ends at `16 * (size / 16)` |
| PixelConv.LoadBankHeader | pixelconv/src/main.rs:114-120 | the bank's entries are `HeaderTable` of the header file's bytes |
| PixelConv.Read44Pixel | pixelconv/src/main.rs:205-211 | consumes one byte and yields the scaled `(byte >> 4) & 15` and `byte & 15`; fails at the end of the source |
| PixelConv.ReadPixelData | pixelconv/src/main.rs:185-202 | consumes exactly `2 * width * height` bytes and yields `Decode4444` of them; fails with `UnexpectedEof` if the source ends first |
| PixelConv.LoadTexture | pixelconv/src/main.rs:172-183 | seeks to the record's absolute `offset` and yields `Texture`: the decoded image, or the error; the cursor ends at `offset + 2 * width * height`, or at `max(offset, end of source)` if the pixels do not fit |
| HabTool.Parse | hab_tool/src/main.rs:49-90 | defines `Hab::new` on values: header, then table, then names, then `data_start` |
| HabTool.ReadHeader | hab_tool/src/main.rs:50-55 | defines the header read: magic, 16 opaque bytes, count, two dropped fields, `total_size` |
| HabTool.DecodeMeta | hab_tool/src/main.rs:157-171 | defines a table record's three fields at offsets 0, 4 and 8 |
| HabTool.EntryName | hab_tool/src/main.rs:71-73 | defines a name: `read_until(0)` from `filenames_start + name_offset`, then `pop` |
| HabTool.NameEnd | hab_tool/src/main.rs:71-72 | defines where the cursor stops after reading a name |
| HabTool.DataStart | hab_tool/src/main.rs:82 | defines `data_start`: the cursor after the last name, or `filenames_start` with no entries |
| HabTool.ResolveNames | hab_tool/src/main.rs:67-80 | defines the name phase: the entries named in table order, or `InvalidUtf8` if any name does not decode |
| Stream.ReadUntil | hab_tool/src/main.rs:72 | defines what `read_until` consumes: up to and including the first delimiter, or to the end |
| Stream.Available | hab_tool/src/main.rs:120-132 | defines what a read bounded by n yields: the next n bytes, cut short by the end of the source |
| Bytes.ValidUtf8 | hab_tool/src/main.rs:75 | defines what `String::from_utf8` accepts |
| PixelConv.DecodeInfo | pixelconv/src/main.rs:159-170 | defines a texture record's eight fields at offsets 0, 2, 4, 5, 6, 8, 12 and 14 |
| PixelConv.Pixel | pixelconv/src/main.rs:192-198 | defines one pixel's four output bytes from its two input bytes |
| PixelConv.Texture | pixelconv/src/main.rs:172-202 | defines `load_texture_from_reader` on values: the decoded image, or `UnexpectedEof` |
| PixelConv.FromVec | pixelconv/src/main.rs:179-180 | defines the `from_vec` size check: `BufferTooSmall` when fewer than `4 * width * height` bytes |
| Stream.Pop | hab_tool/src/main.rs:73 | defines `name.pop()` with its result dropped: the name without its last byte, or empty |
| Bytes.LeU16 | hab_tool/src/main.rs:208-214 | defines `u16::from_le_bytes` on two bytes |
| Bytes.LeU32 | hab_tool/src/main.rs:200-206 | defines `u32::from_le_bytes` on four bytes |
| Bytes.HighNibble | pixelconv/src/main.rs:207 | defines `(byte >> 4) & 0b1111` |
| Bytes.LowNibble | pixelconv/src/main.rs:208 | defines `byte & 0b1111` |
| HabTool.RawName | hab_tool/src/main.rs:71-72 | defines the bytes `read_until(0)` returns from `filenames_start + name_offset` |
| HabTool.ReadTable | hab_tool/src/main.rs:56-62 | defines the record loop: `count` records from the table's start, or `UnexpectedEof` if the source ends first |
| HabTool.Entries | hab_tool/src/main.rs:69-80 | defines the entries the name loop pushes: each record with its popped name, in table order |
| HabTool.NamesDecode | hab_tool/src/main.rs:75 | defines the name loop's `from_utf8` checks: every name, in table order, is valid UTF-8 |

## Left out

- Command-line parsing, the `main` loops, directory creation, `File::create`, `io::copy` into a file, `fs::write`, JSON serialisation and logging (hab_tool/src/main.rs:16-35, 77; pixelconv/src/main.rs:19-107). These are I/O glue around the modelled readers. `HabTool.Hab.Extract` stands for the `io::copy` loop as reads into a buffer of a given size.
- The `WalkDir` traversal and path juggling in `handle_entry`. They are thin wrappers over library code.
- The exact value of `scale_4bit_to_8bit`. It is `f32` arithmetic, and the model takes it as a 16-entry table.
- `imageops::flip_vertical_in_place` and PNG encoding. These are external image-library calls. `RgbaImage::from_vec` is modelled by its size check only (`PixelConv.FromVec`).
- `BufReader` buffering, and the `fill_buf`/`consume` forwarding of `HabFile` (hab_tool/src/main.rs:135-146). The source is a byte sequence with a cursor. A read returns everything it can up to its bound; the short reads a real reader may return are not modelled.
- The I/O errors of `seek` and `stream_position`. Seeking is total here, including past the end of the source.
- The exclusive borrow of the reader by a `HabFile`. Dafny has no lifetime to state it. `HabFile` shares the `ByteReader` object, and `Hab.GetFileByIndex` says where it leaves the cursor.
- The `u64` width of `filenames_start + name_offset` and `data_start + data_offset`. The operands are at most a `u16` count, 32-bit offsets and the source length, so these sums cannot overflow `u64`; the model uses unbounded integers.
- A payload that runs past the end of the source is not an error; the `Take` view just ends early (`Stream.BoundedReadStep`, `HabTool.HabFile.Drain`).
- A truncated table fails with the reader's `UnexpectedEof`; there is no separate truncated-table error.
- The container reader has no lookup by name; entries are reached only by index (`get_file_by_index`).
- `total_size` is stored but never checked.
