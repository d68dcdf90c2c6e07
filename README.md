# btrfs send-stream decoder — a Dafny model

This project models the core of `file_search`, a tool that reads a **btrfs send
stream, version 1**, and rebuilds the file listing of each subvolume the stream
describes.

The stream layout is the one in the Linux kernel's `fs/btrfs/send.h`:

- a stream header: the 13-byte magic `btrfs-stream\0` and a little-endian `u32` version;
- a sequence of command frames: `u32` size, `u16` command id, `u32` checksum, then
  `size` bytes of TLV attributes;
- each TLV: `u16` type, `u16` length, payload. A payload is a little-endian `u64` or
  `u128`, a timespec (`u64` seconds, `u32` nanoseconds), or raw bytes read as a
  lossless byte/UTF-8 string.

The model has one module per source file.

| module | file | models |
|---|---|---|
| `Io` | io.dfy | Fixed-width integers and an in-memory reader over `seq<byte>`. The reader has a cursor `pos` and a `limit`, which models `Read::take`. Also `read_exact` and `byteorder`'s little-endian reads. |
| `Utf8` | utf8.dfy | The UTF-8 syntax of section 4 of RFC 3629. Also Rust's `str::from_utf8`, including `valid_up_to`, and `error_len` by the "maximal subpart" rule of the Unicode Standard, chapter 3, section 3.9. |
| `Mixed` | mixed.dfy | `MixedString`: decoding bytes into text, raw-byte and end-of-input segments; rendering; byte flattening; reversal; equality. |
| `Model` | model.dfy | `FileType` and its numbering, the `fs::FileType` conversion, `FileInfo`, and the subvolume shape. |
| `Utils` | utils.dfy | `try_read`, timespec, byte and string payload reads, and `Debuggable`. |
| `Tlv` | tlv.dfy | The attribute-id table, the `TLV` record (a class), `add`, the `tlv_get` family, and `read_tlvs`. |
| `Subvolumes` | subvolume.dfy | The per-subvolume file map with tombstones. Each operation is a specification function plus a method of the `SubvolumeInfo` class. |
| `Commands` | commands.dfy | The command-id table, the effect of each command on the replay state, and command framing. |
| `BtrfsParser` | parser.dfy | The header check, the `parse` loop, and the `Parser` class with its `read_command`. |
| `Legacy` | legacy.dfy | The older monolithic `src/parser.rs`, which the command-line program uses. |
| `Offseted` | offseted_reader.dfy | `OffsetedReader` offset accounting. |
| `Find` | find.dfy | Normalising a `SystemTime` before the epoch into `(seconds, nanoseconds)`. |

Code that updates state in place is modelled by classes:

- `SubvolumeInfo` holds the file map;
- `TLV` holds the decoded attributes;
- `Parser` holds the open subvolume, the finished ones and the command counter;
- `OffsetedReader` holds an inner reader and an offset.

Each method is proved against a specification function on values: `AddFileSpec`,
`ReadTlvsSpec`, `Effect`, `ReadCommandSpec`, `ParseFrom`, and so on. The properties
the source promises are lemmas about those functions.

External behaviour is passed in as parameters:

- chrono's timestamp validity check is a `TimestampCheck` parameter;
- grapheme-cluster reversal is the parameter `g` of `Mixed.Reverse`.

## Model

| member | source | states |
|---|---|---|
| Io.Pow256 | src/btrfs/tlv.rs:60 | Powers of 256 are positive. |
| Io.Pow256Add | src/btrfs/tlv.rs:60 | 256^(j+k) = 256^j · 256^k. |
| Io.LittleEndian | src/btrfs/tlv.rs:60 | The little-endian value of k bytes is below 256^k. |
| Io.LittleEndianInjective | src/btrfs/tlv.rs:60 | Two byte strings of equal length with the same little-endian value are equal, so decoding loses nothing. |
| Io.LittleEndianTwo | src/btrfs/tlv.rs:164-177 | A 2-byte field decodes as low byte + 256 · high byte. |
| Io.LittleEndianExample | src/btrfs/tlv.rs:251-256 | Bytes 01..08 decode to 0x0807060504030201. |
| Io.Open | src/btrfs/parser.rs:49-50 | A fresh reader starts at 0 and has the whole input remaining. |
| Io.Take | src/btrfs/tlv.rs:180 | `take(n)` keeps the position and limits what remains to min(n, remaining). |
| Io.Release | src/btrfs/commands.rs:81-82 | Returning from a `take` keeps the inner position and the outer limit. |
| Io.ReadExact | src/btrfs/parser.rs:83-84 | `read_exact` succeeds iff n bytes remain and returns exactly them. Otherwise it fails with UnexpectedEof and the input is used up to the limit. |
| Io.ReadToEnd | src/btrfs/utils.rs:144-148 | Reading to the end returns every remaining byte and leaves the cursor at the limit. |
| Io.ReadUint | src/btrfs/tlv.rs:60 | An n-byte little-endian read succeeds iff n bytes remain. Its value is the little-endian value of those bytes, and the cursor moves by n. |
| Io.ReadU16 | src/btrfs/commands.rs:72 | As ReadUint, for 2 bytes. |
| Io.ReadU32 | src/btrfs/commands.rs:65 | As ReadUint, for 4 bytes. |
| Io.ReadU64 | src/btrfs/tlv.rs:84-88 | As ReadUint, for 8 bytes. |
| Io.ReadU128 | src/btrfs/tlv.rs:83 | As ReadUint, for 16 bytes. |
| Utf8.StepAt | src/mixed.rs:23-49 | Classifies the sequence starting at i. A character has the width its lead byte announces. An invalid sequence is 1 to 3 bytes long. A truncated one runs to the end of input and has at most 3 bytes. |
| Utf8.StepAtChar | src/mixed.rs:23-26 | The k bytes at i form a well-formed character iff the step there is a k-byte character. |
| Utf8.StepAtNoChar | src/mixed.rs:36-48 | When the step is not a character, no well-formed character starts at i. |
| Utf8.Completion | src/mixed.rs:43-48 | A valid proper prefix can be completed to a well-formed character. |
| Utf8.CompletionIsPrefix | src/mixed.rs:43-48 | Such a prefix is a prefix of some character. |
| Utf8.BadLeadNoPrefix | src/mixed.rs:36-42 | A byte that cannot lead a character starts no character prefix. |
| Utf8.BadSecondNoPrefix | src/mixed.rs:36-42 | A lead byte followed by an out-of-range second byte starts no character prefix. |
| Utf8.BadTailNoPrefix | src/mixed.rs:36-42 | A non-continuation byte inside a character's width breaks every prefix. |
| Utf8.StepAtInvalid | src/mixed.rs:36-42 | The length of an invalid sequence is its maximal subpart: the longest prefix of a possible character, or 1 if there is none. |
| Utf8.StepAtTruncated | src/mixed.rs:43-48 | A truncated tail is a prefix of some character. |
| Utf8.Scan | src/mixed.rs:23-49 | A malformed result points at an error inside the input. A known error length stays within the input. |
| Utf8.FromUtf8 | src/mixed.rs:23 | As Scan, from the start of the input. |
| Utf8.ScanAccepts | src/mixed.rs:23-26 | If the scan accepts, the scanned bytes are valid UTF-8. |
| Utf8.ScanWellFormed | src/mixed.rs:23-26 | The scan accepts iff the scanned bytes are valid UTF-8. |
| Utf8.FromUtf8Valid | src/mixed.rs:23-26 | `from_utf8` succeeds iff the input is valid UTF-8 (RFC 3629, section 4). |
| Utf8.StepAtError | src/mixed.rs:36-48 | Where no character starts, the error length is the maximal subpart, or none for a truncated tail. |
| Utf8.ScanMalformed | src/mixed.rs:28-48 | On failure, the bytes before `valid_up_to` are valid, no character starts at `valid_up_to`, and the error length is that of the step there. |
| Utf8.FromUtf8Malformed | src/mixed.rs:28-48 | On failure, the prefix up to `valid_up_to` is valid and the error there is as described above. |
| Utf8.ScanSkipValid | src/mixed.rs:23-49 | Scanning over a valid stretch does not change the result. |
| Utf8.CharWidth | src/mixed.rs:23-49 | A well-formed character is as long as its lead byte announces. |
| Utf8.NoCharNotValid | src/mixed.rs:36-48 | If no character starts a sequence, none of its non-empty prefixes is valid. |
| Utf8.ValidCons | src/mixed.rs:23-26 | A character followed by valid text is valid. |
| Utf8.ValidConcat | src/mixed.rs:62-79 | Valid text concatenated with valid text is valid. |
| Utf8.CharValid | src/mixed.rs:23-26 | A single well-formed character is valid text. |
| Utf8.AsciiValid | src/mixed.rs:205-210 | ASCII text is valid UTF-8. |
| Mixed.Rev | src/mixed.rs:93-106 | Reversal puts element i at position \|s\|-1-i. |
| Mixed.RevRev | src/mixed.rs:93-106 | Reversing twice gives back the sequence. |
| Mixed.RevConcat | src/mixed.rs:93-106 | The reverse of a + b is the reverse of b followed by the reverse of a. |
| Mixed.JoinConcat | src/mixed.rs:62-91 | Concatenating the images of a + b is concatenating the images of a, then of b. |
| Mixed.JoinCons | src/mixed.rs:62-91 | The same for one leading segment. |
| Mixed.FromBytes | src/mixed.rs:19-54 | The loop builds exactly the decoding Decode defines. |
| Mixed.FromString | src/mixed.rs:56-60 | A string becomes one text segment: flattening gives it back, and it equals what decoding its bytes gives. |
| Mixed.ToBytes | src/mixed.rs:81-91 | The loop produces the concatenation of every segment's bytes (the end marker adds none). |
| Mixed.HexDigit | src/mixed.rs:70 | Hex digits are ASCII. |
| Mixed.Escape | src/mixed.rs:70 | A raw byte renders as 6 characters, `\u{xx}`. |
| Mixed.Escapes | src/mixed.rs:69-71 | k raw bytes render as 6k characters. |
| Mixed.ToString | src/mixed.rs:62-79 | The loop produces the rendering: text copied, bytes escaped, the end marker as U+FFDD. |
| Mixed.EscapesCons | src/mixed.rs:69-71 | Escaping distributes over a leading byte. |
| Mixed.HexValueDigit | src/mixed.rs:70 | Lowercase hex digit rendering is invertible. |
| Mixed.UnescapeOne | src/mixed.rs:69-71 | Un-escaping inverts one escape at the front. |
| Mixed.UnescapeEscapes | src/mixed.rs:69-71 | The escape rendering of any bytes can be un-escaped back to them, so it loses nothing. |
| Mixed.EscapesAscii | src/mixed.rs:69-71 | Escaped bytes are pure ASCII. |
| Mixed.RenderPrefixValid | src/mixed.rs:62-79 | Rendering segments whose text is valid gives valid UTF-8. |
| Mixed.RenderValid | src/mixed.rs:62-79 | `to_string` always yields valid UTF-8 when the text segments are valid. |
| Mixed.FlattenLead | src/mixed.rs:31-34 | The leading text segment flattens to the valid prefix. |
| Mixed.RoundTripChunk | src/mixed.rs:36-42 | Round trip on input with an invalid sequence, given it for the rest of the input. |
| Mixed.RoundTripCut | src/mixed.rs:43-48 | Round trip on input with a truncated tail. |
| Mixed.DecodeRoundTrip | src/mixed.rs:19-91 | For every byte sequence b, `to_bytes(from_bytes(b)) == b`. |
| Mixed.SoundAfterChunk | src/mixed.rs:28-42 | Valid text, then an invalid chunk of 1 to 3 bytes that is the maximal subpart of the bytes after it, then sound segments, together form a sound list. |
| Mixed.DecodeSound | src/mixed.rs:19-54 | In every decoding, text is valid, and empty only as the last segment. A byte chunk has 1 to 3 bytes and is not valid. It is the maximal subpart of the bytes from there to the end, unless the end marker follows it; then it is the cut-off start of a character. The end marker comes only last and only after raw bytes. |
| Mixed.DecodeText | src/mixed.rs:23-26 | Input decodes to exactly one text segment holding all of it iff it is valid UTF-8. Empty input included. |
| Mixed.DecodeTextValid | src/mixed.rs:19-54 | Every text segment of a decoding is valid UTF-8. |
| Mixed.SegmentEq | src/mixed.rs:115-136 | Segment equality holds iff the segments are identical: same kind and same contents. |
| Mixed.MixedEq | src/mixed.rs:109-113 | `MixedString` equality holds iff the segment sequences are identical. |
| Mixed.Reversed | src/mixed.rs:93-106 | Reversal keeps the number of segments. |
| Mixed.Reverse | src/mixed.rs:93-106 | The loop computes Reversed: segment order reversed, byte segments reversed, text reversed by g, the end marker kept. |
| Mixed.ReversedFlattenPrefix | src/mixed.rs:93-106 | If g reverses the bytes of every text segment, the reversed flattening is the flattening reversed. |
| Mixed.ReversedFlatten | src/mixed.rs:93-106 | `to_bytes(reverse(m)) == reverse(to_bytes(m))` whenever the grapheme reversal reverses bytes. |
| Mixed.ReversedTwice | src/mixed.rs:93-106 | Reversal is an involution when g is one on the text segments. |
| Mixed.ReversedTextValid | src/mixed.rs:93-106 | Reversal keeps text valid when g keeps valid text valid. |
| Mixed.UnitWidth | src/mixed.rs:98 | A reversal unit of non-empty text takes 1 to \|s\| bytes. |
| Mixed.CharsReversed | src/mixed.rs:98 | Character-wise reversal keeps the length. |
| Mixed.CharsReversedValid | src/mixed.rs:98 | Character-wise reversal of valid text is valid. |
| Mixed.CharsReversedAscii | src/mixed.rs:98 | On ASCII, character-wise reversal is byte reversal. |
| Mixed.Ascii | src/mixed.rs:196-203 | ASCII string literals as bytes. |
| Mixed.Render1 | src/mixed.rs:62-79 | Rendering a one-segment string renders that segment. |
| Mixed.Render3 | src/mixed.rs:62-79 | Rendering three segments concatenates their renderings. |
| Mixed.Escapes1 | src/mixed.rs:69-71 | A single byte escapes as one escape. |
| Mixed.EscapeExamples | src/mixed.rs:212-238 | 0x80, 0x81 and 0xF0 render as `\u{80}`, `\u{81}` and `\u{f0}` (lowercase hex). |
| Mixed.Reversed1 | src/mixed.rs:93-106 | Reversing one segment reverses it in place. |
| Mixed.Reversed3 | src/mixed.rs:93-106 | Reversing three segments reverses their order and each segment. |
| Mixed.DecodeAscii | src/mixed.rs:205-210 | ASCII input is one text segment. |
| Mixed.TestNormal | src/mixed.rs:205-210 | ASCII text without CR LF decodes to itself, renders and flattens to itself, and reverses to the byte reversal. |
| Mixed.NotLead | src/mixed.rs:212-217 | A continuation byte in lead position is an invalid sequence of length 1 at 0. |
| Mixed.DecodeStray | src/mixed.rs:212-217 | A stray continuation byte becomes its own one-byte segment. |
| Mixed.TestInvalid | src/mixed.rs:212-217 | Two continuation bytes decode to two byte segments and an empty text. They render as two escapes, in reverse order after reversal. |
| Mixed.StopAfter | src/mixed.rs:219-228 | Scanning passes over an ASCII prefix. |
| Mixed.MixedScan | src/mixed.rs:219-228 | A four-byte lead followed by ASCII is an invalid sequence of length 1. |
| Mixed.EofScan | src/mixed.rs:230-238 | A multibyte lead at the end is a truncated tail. |
| Mixed.TestMixed | src/mixed.rs:219-228 | "hello", a four-byte lead, then ASCII decodes to text, one byte, text. Its rendering and reversed rendering are as the test expects. |
| Mixed.TestEof | src/mixed.rs:230-238 | A trailing multibyte lead decodes to text, the byte, and the end marker. It renders with U+FFDD, and reversed with U+FFDD first. |
| Mixed.TestReverseEmoji | src/mixed.rs:240-251 | Reversing ASCII text without CR LF followed by U+1F937 keeps the emoji whole and puts it first, then the text reversed. |
| Mixed.ReversedCharsAppend | src/mixed.rs:240-251 | Character-wise reversal of ASCII followed by one character. |
| Mixed.EmojiIsChar | src/mixed.rs:240-251 | F0 9F A4 B7, the UTF-8 form of U+1F937, is one well-formed character. |
| Model.ToNum | src/model.rs:8-25 | Numbers lie in 0..7, and 7 is exactly Unknown (the implicit next discriminant). |
| Model.FromNum | src/model.rs:8-25 | Exactly 0..7 name a file type. |
| Model.ToNumInjective | src/model.rs:8-25 | `to_num` is injective and FromNum inverts it. |
| Model.ToNumOnto | src/model.rs:8-25 | Every number in 0..7 is some type's number. |
| Model.FromFs | src/model.rs:27-47 | Types are tested in the fixed order dir, file, symlink, block, char, fifo, socket. The first that holds decides. |
| Model.FromFsUnknown | src/model.rs:28-46 | Unknown is returned exactly when no test holds. |
| Utils.TryRead | src/btrfs/utils.rs:151-160 | `Ok(v)` becomes `Ok(Some(v))`, UnexpectedEof becomes `Ok(None)`, and other errors pass through. |
| Utils.TryReadInverse | src/btrfs/utils.rs:151-160 | `Ok(None)` comes exactly from UnexpectedEof. `Ok(Some(v))` comes from `Ok(v)`. |
| Utils.AsI64 | src/btrfs/utils.rs:126 | The `as i64` cast keeps the value modulo 2^64. It is the identity below 2^63 and negative above. |
| Utils.AsI64RoundTrip | src/btrfs/utils.rs:126 | The cast is a bijection between u64 and i64. |
| Utils.ReadTimespec | src/btrfs/utils.rs:125-136 | Reads 8 bytes of seconds (as i64) and 4 of nanoseconds. Succeeds iff 12 bytes remain and the pair is a valid timestamp. Otherwise fails with InvalidData after 12 bytes, or with UnexpectedEof. |
| Utils.ReadBytes | src/btrfs/utils.rs:144-148 | Consumes and returns every remaining byte. |
| Utils.ReadMixed | src/btrfs/utils.rs:138-142 | Returns `from_bytes` of every remaining byte. |
| Utils.ReadMixedLossless | src/btrfs/utils.rs:138-142 | The string read flattens back to the payload bytes, and its text is valid UTF-8. |
| Utils.DerefIgnoresText | src/btrfs/utils.rs:15-31 | Dereferencing yields the wrapped value, whatever the debug text. |
| Tlv.AttrId | src/btrfs/tlv.rs:82-98 | Every attribute's id is among {1,4,5,6,7,8,9,10,11,13,14,15,16,17,22}. |
| Tlv.AttrOf | src/btrfs/tlv.rs:37-98 | `TLVs::new(id)` names an attribute iff id is in that set, and then the one with that id. |
| Tlv.AttrOfId | src/btrfs/tlv.rs:37-45 | AttrOf inverts AttrId. |
| Tlv.IntoOption | src/btrfs/tlv.rs:106-119 | WNone becomes None and `WSome(v)` becomes `Some(v)`. |
| Tlv.U128Field | src/btrfs/tlv.rs:49-55 | The UUID field is WNone iff no UUID was decoded, and otherwise carries the decoded value. |
| Tlv.U64Field | src/btrfs/tlv.rs:49-55 | The same for the u64 fields. |
| Tlv.TimeField | src/btrfs/tlv.rs:49-55 | The same for the time fields. |
| Tlv.TextField | src/btrfs/tlv.rs:49-55 | The same for the string fields. |
| Tlv.Convert | src/btrfs/tlv.rs:60 | Decoding a payload yields a value of the attribute's type. |
| Tlv.ConvertU64 | src/btrfs/tlv.rs:84-88 | A u64 attribute reads exactly 8 little-endian bytes when 8 remain, and fails otherwise. |
| Tlv.ConvertText | src/btrfs/tlv.rs:93-97 | A string attribute reads the whole payload as a `MixedString`. |
| Tlv.AddTo | src/btrfs/tlv.rs:57-65 | An unknown id is an `Ok` no-op that reads nothing. A known id sets that attribute to the decoded value, or passes the decode error through. Well-typedness is kept. |
| Tlv.AddToOthers | src/btrfs/tlv.rs:57-65 | A successful `add` sets only its own attribute (later overwrites earlier). Every other attribute is unchanged. |
| Tlv.TLV.constructor | src/btrfs/tlv.rs:49-55 | A new TLV has every attribute WNone. |
| Tlv.TLV.Add | src/btrfs/tlv.rs:57-65 | The method updates the record as AddTo says. On failure the record is unchanged. |
| Tlv.ReadTlvsFrom | src/btrfs/tlv.rs:161-239 | The TLV loop never moves the cursor backwards. |
| Tlv.ReadTlvs | src/btrfs/tlv.rs:161-239 | The loop builds a fresh TLV whose attributes, result and end position are those of the specification. |
| Tlv.ReadTlvsErrors | src/btrfs/tlv.rs:163-177 | The only error is UnexpectedEof. EOF on the type field returns `Ok` with what was decoded. EOF on the length field is an error. |
| Tlv.ReadTlvsKeeps | src/btrfs/tlv.rs:231-236 | Attributes decoded earlier survive to the result. A failed payload stops the loop but keeps them. |
| Tlv.ReadTlvsWellTyped | src/btrfs/tlv.rs:161-239 | Every decoded attribute has its declared type. |
| Tlv.ReadTlvsStep | src/btrfs/tlv.rs:168-236 | One iteration: read type and length, decode the payload through `take(len)`, advance by the bytes decoded. Stop with `Ok` on a decode error. |
| Tlv.ReadModeFrom | src/btrfs/tlv.rs:168-236 | A Mode TLV with 8 payload bytes sets Mode and continues 12 bytes on. |
| Tlv.ReadModeOnly | src/btrfs/tlv.rs:358-373 | A stream holding exactly one Mode TLV decodes to exactly that Mode. |
| Tlv.TlvGetWith | src/btrfs/tlv.rs:122-142 | A present value is returned. An absent one takes the default, or errs naming the missing attribute's id. |
| Tlv.TlvGet | src/btrfs/tlv.rs:144-146 | Succeeds iff the value is present, and errs on the missing attribute otherwise. |
| Tlv.TlvGetDef | src/btrfs/tlv.rs:148-150 | Always succeeds, with the value or the default. |
| Tlv.TlvGetAuto64 | src/btrfs/tlv.rs:152-157 | Always succeeds, with the value or `u64::MAX`. |
| Tlv.TlvGetAuto128 | src/btrfs/tlv.rs:152-157 | Always succeeds, with the value or `u128::MAX`. |
| Tlv.FillTlv | src/btrfs/tlv.rs:304-316 | Adding Mode (5) then Gid (7) leaves both present, with their decoded values. |
| Tlv.LittleEndianOne | src/btrfs/tlv.rs:251-269 | 01 00 00 00 00 00 00 00 decodes to 1. |
| Tlv.ReadData | src/btrfs/tlv.rs:358-373 | The test stream decodes to Mode only, and `tlv_get(Mode)` gives its value. |
| Tlv.ReadError | src/btrfs/tlv.rs:376-390 | A Mode header without payload gives `Ok` with nothing set, so `tlv_get(Mode)` errs. |
| Tlv.ReadMixedTlvs | src/btrfs/tlv.rs:393-410 | After a good Mode TLV, a Gid TLV with a 2-byte payload stops the loop. Mode is kept and Gid stays absent. |
| Subvolumes.AddFileSpec | src/btrfs/subvolume.rs:12-33 | Stores a live entry at the path with filename = path, permissions = mode, the given type, and zero length, owner, group and times. It replaces any entry or tombstone there. All other keys and the mode flag are unchanged. |
| Subvolumes.DelFileSpec | src/btrfs/subvolume.rs:35-60 | Fails on an absent path or a tombstone, with the matching error. On a live entry it succeeds: overwrite mode removes the key, snapshot mode leaves a tombstone. Other keys are unchanged. |
| Subvolumes.GetFileSpec | src/btrfs/subvolume.rs:62-70 | Fails exactly when the path is absent. A tombstone is returned as `Ok(None)`. |
| Subvolumes.PopFileSpec | src/btrfs/subvolume.rs:72-80 | Fails exactly when the path is absent. Otherwise returns the entry (tombstone included) and removes only that key. |
| Subvolumes.CopyFileSpec | src/btrfs/subvolume.rs:93-101 | Fails exactly when the source is absent. Otherwise stores the source entry at the target with filename rewritten to the target (a tombstone copies as a tombstone). Nothing else changes. |
| Subvolumes.ModifySpec | src/btrfs/subvolume.rs:103-124 | Applies the update only to a live entry and returns its result. An absent path or a tombstone fails with its own error. |
| Subvolumes.PopRestore | src/btrfs/subvolume.rs:72-80 | Putting back what `pop_file` returned restores the subvolume. |
| Subvolumes.AddThenUse | src/btrfs/subvolume.rs:149-215 | After `add_file`, get, pop, copy and delete of that path all succeed, and get and pop see the new record. |
| Subvolumes.SnapshotTombstone | src/btrfs/subvolume.rs:244-254 | In snapshot mode, after a delete: a second delete fails as already deleted, modify fails as deleted, and get sees the tombstone. |
| Subvolumes.OverwriteForgets | src/btrfs/subvolume.rs:235-242 | In overwrite mode a delete forgets the path, so it then counts as never existing. |
| Subvolumes.ModifyIdentity | src/btrfs/subvolume.rs:103-124 | An update that changes nothing leaves the subvolume as it was. |
| Subvolumes.CopyKeepsSource | src/btrfs/subvolume.rs:93-101 | Copying leaves the source entry untouched. |
| Subvolumes.SubvolumeInfo.constructor | src/model.rs:69-74 | A subvolume starts with an empty file map. |
| Subvolumes.SubvolumeInfo.AddFile | src/btrfs/subvolume.rs:12-33 | Always returns `Ok`, and the new state is AddFileSpec of the old. |
| Subvolumes.SubvolumeInfo.DelFile | src/btrfs/subvolume.rs:35-60 | Result and new state follow DelFileSpec. On failure nothing changes. |
| Subvolumes.SubvolumeInfo.GetFile | src/btrfs/subvolume.rs:62-70 | Returns GetFileSpec, and the state is unchanged. |
| Subvolumes.SubvolumeInfo.PopFile | src/btrfs/subvolume.rs:72-80 | Result and new state follow PopFileSpec. On failure nothing changes. |
| Subvolumes.SubvolumeInfo.LoadFile | src/btrfs/subvolume.rs:83-91 | Never changes the file map. |
| Subvolumes.SubvolumeInfo.CopyFile | src/btrfs/subvolume.rs:93-101 | Result and new state follow CopyFileSpec. On failure nothing changes. |
| Subvolumes.SubvolumeInfo.Modify | src/btrfs/subvolume.rs:103-124 | Result and new state follow ModifySpec. On failure nothing changes. |
| Commands.CommandId | src/btrfs/commands.rs:40-60 | Every known command's id is among 1–14, 16, 18–21. |
| Commands.CommandOf | src/btrfs/commands.rs:27-60 | `Command::new` gives Unknown exactly for ids outside 1–14, 16, 18–21, and otherwise the command with that id. |
| Commands.CommandOfId | src/btrfs/commands.rs:27-34 | CommandOf inverts CommandId. |
| Commands.Subvol | src/btrfs/parser.rs:70-74 | `subvol` fails iff no subvolume is open, and otherwise returns the open one. |
| Commands.OpenEffect | src/btrfs/commands.rs:89-118 | Subvolume and Snapshot fail iff a subvolume is open, each with its own message. Otherwise they open an empty subvolume with overwrite true or false and the UUID, defaulting to `u128::MAX`. |
| Commands.MakeEffect | src/btrfs/commands.rs:119-133 | Missing Path (or PathLink for Symlink), or no open subvolume, fails. Otherwise `add_file` at Path, with mode from Mode (default `u64::MAX`) for nodes and 0 otherwise. Symlink records a symlink, every other command a directory. |
| Commands.RenameEffect | src/btrfs/commands.rs:134-143 | Needs Path, PathTo and an open subvolume. Fails iff Path is absent from the map. Otherwise moves the entry to PathTo and removes the Path key. |
| Commands.CopyEffect | src/btrfs/commands.rs:144-165 | Link and Clone need an open subvolume, Path and the target attribute. Then they do exactly `copy_file`. |
| Commands.UnlinkEffect | src/btrfs/commands.rs:148-155 | Needs Path and an open subvolume. Fails iff Path is absent. Otherwise removes the key outright, whatever the mode. |
| Commands.ChmodEffect | src/btrfs/commands.rs:166-176 | Changes only the permissions of one live entry, to Mode or `u64::MAX`. Otherwise fails as `modify` does. |
| Commands.ChownEffect | src/btrfs/commands.rs:177-189 | Changes only the owner and group of one live entry, defaulting to `u64::MAX`. |
| Commands.UtimesEffect | src/btrfs/commands.rs:190-203 | Changes only the three times of one live entry, defaulting to `default_dt`. |
| Commands.EndEffect | src/btrfs/commands.rs:204-213 | Fails iff nothing is open. Otherwise appends the open subvolume to the results and closes it, with the counter unchanged. |
| Commands.Effect | src/btrfs/commands.rs:86-214 | Dispatch. A success never touches the counter. Only End adds to the results. File commands need an open subvolume and keep its source and mode. Unknown, SetXattr and RemoveXattr change nothing. |
| Commands.ReadFrame | src/btrfs/commands.rs:64-80 | Returns `Ok(None)` exactly when fewer than 4 bytes remain. Otherwise the frame's size and id are the little-endian header fields, its TLVs lie within the frame, and errors are UnexpectedEof. |
| Commands.ReadCommandSpec | src/btrfs/commands.rs:64-216 | `Ok(false)` with no change exactly at end of input. The counter rises by 1 iff the TLVs were read. An error changes nothing but the counter. Results only grow by the open subvolume. |
| BtrfsParser.DefaultSettings | src/btrfs/parser.rs:19-25 | `bypass_errors` is false by default. |
| BtrfsParser.ReadHeader | src/btrfs/parser.rs:76-100 | Succeeds iff the 13-byte magic matches and the next u32 LE is 1, consuming 17 bytes. Each failure has its own error: short input, bad magic (with the bytes found), bad version (with the value found). |
| BtrfsParser.RunCommands | src/btrfs/parser.rs:52-66 | The loop only appends to the results and only raises the counter. It stops when fewer than 4 bytes remain. |
| BtrfsParser.ParseFrom | src/btrfs/parser.rs:49-68 | Fails iff the header is bad, with the header's error. Per-command errors are swallowed. The results extend the state's. |
| BtrfsParser.Parse | src/btrfs/parser.rs:49-68 | From a new parser: fails iff the header is bad. |
| BtrfsParser.HeaderAccepts | src/btrfs/parser.rs:76-100 | Magic followed by version 1 is accepted and leaves the cursor after 17 bytes. |
| BtrfsParser.EmptyFrame | src/btrfs/commands.rs:64-80 | A frame of size 0 yields its id, no attributes, and the cursor after the 10-byte header. |
| BtrfsParser.EmptyFrameBytes | src/btrfs/commands.rs:64-80 | An empty frame is 10 bytes long. |
| BtrfsParser.EmptyFrameAt | src/btrfs/commands.rs:64-80 | Decoding those bytes gives back the id, whatever the checksum. |
| BtrfsParser.ReplayEmptyFrame | src/btrfs/parser.rs:52-66 | An empty frame is counted, its effect applied, or skipped if it fails, and the loop goes on after it. |
| BtrfsParser.SubvolumeWithoutAttrs | src/btrfs/commands.rs:89-103 | Subvolume with no UUID opens an empty overwrite subvolume with UUID `u128::MAX`. |
| BtrfsParser.EndCloses | src/btrfs/commands.rs:204-213 | End closes and records the open subvolume, and fails when none is open. |
| BtrfsParser.ParseHeaderOnly | src/btrfs/parser.rs:49-68 | A header with no commands parses to no subvolumes. |
| BtrfsParser.ParseOpenEnd | src/btrfs/parser.rs:49-68 | Subvolume then End yields exactly that one subvolume. |
| BtrfsParser.ParseOpenOnly | src/btrfs/parser.rs:67 | A subvolume still open at the end is dropped. |
| BtrfsParser.ParseStrayEnd | src/btrfs/parser.rs:55-65 | A stray End is an error that is swallowed: parsing goes on and the next subvolume is kept. |
| BtrfsParser.ReadCommandFrame | src/btrfs/commands.rs:64-80 | The framing method returns what ReadFrame specifies, and a fresh TLV holding the frame's attributes. |
| BtrfsParser.Parser.constructor | src/btrfs/parser.rs:36-47 | No open subvolume, no results, counter 0, `default_dt` = 99999-12-31 23:58:59. |
| BtrfsParser.Parser.Subvol | src/btrfs/parser.rs:70-74 | Fails iff no subvolume is open. |
| BtrfsParser.Parser.OpenSubvolume | src/btrfs/commands.rs:89-118 | State and result follow OpenEffect. |
| BtrfsParser.Parser.MakeFile | src/btrfs/commands.rs:119-133 | State and result follow MakeEffect. |
| BtrfsParser.Parser.RenameFile | src/btrfs/commands.rs:134-143 | State and result follow RenameEffect. |
| BtrfsParser.Parser.CopyEntry | src/btrfs/commands.rs:144-165 | State and result follow CopyEffect. |
| BtrfsParser.Parser.UnlinkFile | src/btrfs/commands.rs:148-155 | State and result follow UnlinkEffect. |
| BtrfsParser.Parser.ChangeMode | src/btrfs/commands.rs:166-176 | State and result follow ChmodEffect. |
| BtrfsParser.Parser.ChangeOwner | src/btrfs/commands.rs:177-189 | State and result follow ChownEffect. |
| BtrfsParser.Parser.ChangeTimes | src/btrfs/commands.rs:190-203 | State and result follow UtimesEffect. |
| BtrfsParser.Parser.CloseSubvolume | src/btrfs/commands.rs:204-213 | State and result follow EndEffect. |
| BtrfsParser.Parser.Dispatch | src/btrfs/commands.rs:86-216 | State and result follow Effect. Every error path leaves the state unchanged. |
| BtrfsParser.Parser.ReadCommand | src/btrfs/commands.rs:64-216 | Result, reader and new state follow ReadCommandSpec. |
| BtrfsParser.Parser.Parse | src/btrfs/parser.rs:49-68 | The parse loop returns ParseFrom of the state it started in. |
| Legacy.GetEntry | src/parser.rs:376-383 | Fails exactly when the path is absent, with the rename error. A tombstone is `Ok(None)`. |
| Legacy.CopyAsIs | src/parser.rs:394-409 | Aborts exactly when a snapshot lacks the source. Otherwise fails iff the source is absent, or stores the source entry at the target unchanged, with nothing else changed. |
| Legacy.CopyAsIsAgrees | src/parser.rs:404-409 | When it does not abort, the legacy copy succeeds exactly when the split one does and differs only in the copied filename. |
| Legacy.CopyAsIsKeepsName | src/parser.rs:404-409 | The legacy copy keeps the old filename where the split copy writes the new path. |
| Legacy.LoadFile | src/parser.rs:394-402 | Returns (instead of aborting) iff the subvolume is in overwrite mode or holds the path. |
| Legacy.GetFile | src/parser.rs:376-383 | Returns GetEntry, without calling `load_file`. |
| Legacy.CopyFile | src/parser.rs:404-409 | Aborts, or returns and updates the map, exactly as CopyAsIs says. |
| Legacy.RenameStep | src/parser.rs:556-565 | Aborts exactly when Path and PathTo are present and a snapshot lacks Path. Otherwise it acts as the split Rename. |
| Legacy.CopyStep | src/parser.rs:566-587 | Aborts exactly when a snapshot lacks Path. Otherwise it succeeds exactly when the split Link/Clone does, storing the entry unrenamed. |
| Legacy.UnlinkStep | src/parser.rs:570-577 | Aborts exactly when a snapshot lacks Path. Otherwise it acts as the split Unlink. |
| Legacy.Step | src/parser.rs:509-637 | Only a loading command in a snapshot can abort. Every other command is the split effect, and Link/Clone differ only in the copied name. A full send stays a full send. |
| Legacy.StepKeepsFullSend | src/parser.rs:509-637 | Without snapshots nothing aborts and the subvolume stays a full send. |
| Legacy.SnapshotUnlinkAborts | src/parser.rs:394-577 | Unlink of a path a snapshot lacks aborts in the legacy parser, where the split one returns an error. |
| Legacy.ReadCommandStep | src/parser.rs:487-639 | When it returns, it reads the same frame as the split version, with the same counter and the same success. It is identical to it except on Link/Clone. |
| Legacy.RunSteps | src/parser.rs:460-479 | The loop ends when fewer than 4 bytes remain. |
| Legacy.ParseFrom | src/parser.rs:460-479 | Returns an error exactly when the header is bad, with the header's error. |
| Legacy.Parse | src/parser.rs:460-479 | From a new parser: returns an error exactly when the header is bad. |
| Legacy.ReadCommandKeepsFullSend | src/parser.rs:487-639 | A frame that is not a Snapshot never aborts a full send, which stays one. |
| Legacy.NoSnapshotNoAbort | src/parser.rs:460-479 | A stream without Snapshot commands never aborts. |
| Legacy.LegacyAgrees | src/parser.rs:460-639 | Without Snapshot, Link or Clone, the legacy loop computes exactly what the split loop does. |
| Legacy.ParseAgrees | src/parser.rs:460-479 | For such streams the two parsers return the same result. |
| Legacy.Parser.constructor | src/parser.rs:447-458 | No open subvolume, no results, counter 0, and the same `default_dt`. |
| Legacy.Parser.Subvol | src/parser.rs:481-485 | Fails iff no subvolume is open. |
| Legacy.Parser.OpenSubvolume | src/parser.rs:511-540 | Follows OpenEffect. |
| Legacy.Parser.MakeFile | src/parser.rs:541-555 | Follows MakeEffect. |
| Legacy.Parser.RenameFile | src/parser.rs:556-565 | Follows RenameStep. |
| Legacy.Parser.CopyEntry | src/parser.rs:566-587 | Follows CopyStep. |
| Legacy.Parser.UnlinkFile | src/parser.rs:570-577 | Follows UnlinkStep. |
| Legacy.Parser.ChangeMode | src/parser.rs:588-598 | Follows ChmodEffect. |
| Legacy.Parser.ChangeOwner | src/parser.rs:599-611 | Follows ChownEffect. |
| Legacy.Parser.ChangeTimes | src/parser.rs:612-625 | Follows UtimesEffect. |
| Legacy.Parser.CloseSubvolume | src/parser.rs:626-635 | Follows EndEffect. |
| Legacy.Parser.DispatchShared | src/parser.rs:509-635 | The arms that never call `load_file` follow the split Effect. |
| Legacy.Parser.Dispatch | src/parser.rs:509-637 | Follows Step, including the aborts. |
| Legacy.Parser.ReadCommand | src/parser.rs:487-639 | Follows ReadCommandStep. |
| Legacy.Parser.Parse | src/parser.rs:460-479 | Follows ParseFrom. |
| Offseted.ReadSome | src/offseted_reader.rs:23-27 | An inner read returns min(n, remaining) bytes, exactly those at the cursor. |
| Offseted.OffsetedReader.New | src/offseted_reader.rs:9-11 | The offset starts at 0. |
| Offseted.OffsetedReader.After | src/offseted_reader.rs:13-15 | The offset starts at the given value. |
| Offseted.OffsetedReader.GetOffset | src/offseted_reader.rs:17-19 | The offset is the start offset plus the bytes read so far. |
| Offseted.OffsetedReader.Read | src/offseted_reader.rs:23-27 | A read returns what the inner reader read and raises the offset by exactly that count. |
| Offseted.ReadTwice | src/offseted_reader.rs:17-27 | Two reads of m and n bytes give the offset min(m + n, length). |
| Find.WrapI64 | src/find.rs:32-36 | Release-build i64 arithmetic keeps values modulo 2^64, and is exact in range. |
| Find.IntoNaive | src/find.rs:17-41 | After the epoch the nanoseconds are kept. Before it, the nanoseconds are 0 exactly when the input's are. |
| Find.AfterExact | src/find.rs:19-24 | After the epoch the result is `(secs as i64, nanos)`. |
| Find.BeforeExact | src/find.rs:25-37 | Before the epoch the result is the negated time: `(-secs, 0)`, or `(-secs-1, 1e9-nanos)` with nanos in (0, 1e9). |
| Find.BeforeWraps | src/find.rs:34-36 | At 2^63 seconds plus 1 ns before the epoch, the subtraction wraps to `i64::MAX`. |

## Left out

- `src/database.rs`, `src/main.rs` and `find.rs`'s `walk` are not part of this model. They are storage, the command line and filesystem traversal.
- The `make_dump` build feature (`hex`, `_log`, the `log!` output and `TLV::debug`) is diagnostics only. Logging and `eprintln!` are left out.
- The `Hash`, `Display` and `Debug` implementations are left out; formatting has no semantics here.
- chrono is not modelled. The validity check of `NaiveDateTime::from_timestamp_opt` is the `TimestampCheck` parameter, and `NaiveDateTime` is a (seconds, nanoseconds) pair.
- Mixed.Reverse: grapheme-cluster reversal (unicode-segmentation) is the parameter `g`. The tests-as-lemmas use `CharsReversed` (per code point) in its place. It agrees with grapheme reversal on ASCII text without CR LF (UAX #29 rule GB3 joins CR LF into one cluster; no other ASCII character joins a cluster). It also agrees on such text followed by U+1F937, which is Extended_Pictographic and not Extend, so it starts a cluster of its own.
- Mixed.TestNormal: inputs containing CR LF are not covered, because grapheme segmentation is not modelled.
- Mixed.TestMixed: text containing CR LF before the bad byte is not covered, because grapheme segmentation is not modelled.
- Mixed.TestEof: text containing CR LF before the cut character is not covered, because grapheme segmentation is not modelled.
- Mixed.TestReverseEmoji: stated only for U+1F937. Other characters, for example Extend or SpacingMark ones that join the preceding cluster, are not covered, because grapheme segmentation is not modelled.
- The command checksum is read and never checked, as in the source. CRC-32C is not modelled.
- I/O errors other than end of input are not modelled: the reader is an in-memory byte sequence. This includes the error branch of `OffsetedReader::read`.
- Error messages are modelled by their kind and a reason tag, not their text.
- BtrfsParser.Parser.ReadCommand: `command_no` is a `nat`; its `u64` wrap-around after 2^64 commands is not modelled.
- Offseted.OffsetedReader.GetOffset: the offset is a `nat`; the `usize` overflow is not modelled.
- Subvolumes.SubvolumeInfo.GetFile: returns a copy of the entry instead of a mutable reference; callers that mutate go through Modify.
- The Rdev attribute that MkNod/MkFIFO/MkSock fetch is read and unused, as in the source.
- Legacy.Parser: the legacy `add_file` is the split version's text. The legacy `pop_file` and `modify` do not call `load_file`, while the split ones (src/btrfs/subvolume.rs:73, src/btrfs/subvolume.rs:107) do. That call does nothing (src/btrfs/subvolume.rs:83-91), so they behave the same and the `SubvolumeInfo` methods stand for them. The legacy `tlv!`/`cmd!` tables, `read_tlvs` and `read_header` are shared with the split modules.
- `Settings::bypass_errors` is never consulted by `parse`, so the model carries it without using it.
- Find.IntoNaive: `NaiveDateTime::from_timestamp` (src/find.rs:39) panics when the pair is out of chrono's range. That panic is not modelled: the model returns the pair whatever it is.
- Find.IntoNaive: at exactly 2^63 seconds before the epoch the release-build i64 arithmetic wraps (shown by Find.BeforeWraps). Such a `SystemTime` is not representable on common platforms, and the source's behaviour there is kept.
