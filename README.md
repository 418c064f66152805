# th260 data path, modelled in Dafny

This project models the data path of the `th260` package, a Python driver for
the PicoQuant TimeHarp 260 photon counter. The path has three parts:

- **Record decoders** (`th260/ptu_format.py`). `read_T2_record` and
  `read_T3_record` take one raw 32-bit TTTR record, split it into bit fields
  and classify it. `read_T2_buffer` and `read_T3_buffer` take a whole buffer
  of records. They select the records of one channel and attach to each one
  the running number of overflows, accumulated in `uint32`.
- **PTU header writer** (`th260/ptu_format.py`). `tab_string`, `write_tag` and
  `write_ptu` produce the bytes of a PTU file: the magic and version strings,
  every tag (id, index, type code, value, and a padded payload for array and
  string types), `Header_End`, then the data.
- **Result tables** (`th260/tttr_result.py`).
  - `ExtendableTable` is an append-only array with power-of-two capacity.
  - `binnableTable` adds to it an incremental histogram of the values added
    since the last `bin_count`.
  - `T2Result` and `T3Result` decode buffers and append unwrapped times, that
    is, the low field plus the overflow count times the wrap-around size.

Module layout:

| file | module | models |
|---|---|---|
| `wrappers.dfy` | `Wrappers` | `Option` and `Result`: Python's `None` and its exceptions |
| `bits.dfy` | `Bits` | words and bytes, `"{0:032b}".format` with its parse, little-endian `to_bytes` |
| `records.dfy` | `Records` | `read_T2_record`, `read_T3_record` |
| `buffers.dfy` | `Buffers` | `read_T2_buffer`, `read_T3_buffer`, and how they agree with the record readers |
| `ptu.dfy` | `Ptu` | `tab_string`, `write_tag`, `write_ptu`, the `type_code`/`tag_types` tables, and a reference reader for the round trip |
| `histogram.dfy` | `Histogram` | integer binning, `np.bincount`, the `+=` of the old counts |
| `table.dfy` | `Table` | the `ExtendableTable` and `BinnableTable` classes over `array<int>` |
| `result.dfy` | `Results` | the `T2Result` and `T3Result` classes |

How the model represents the source:

- **Buffer decoders.** The numpy buffer decoders are written as one forward
  scan. They are proved equal to the vectorised definition: masks, boolean
  indexing, and a cumulative sum mod 2^32.
- **Tag writer and reader.** The tag writer is a pure byte-sequence function.
  Its partner is a reader written for the model (`Ptu.ReadTag`,
  `Ptu.ReadPtu`). `Ptu.PtuRoundTrip` proves that reading a written header
  gives back every tag's id, index, type code, value and payload, and then
  the data unchanged.
- **Tables.** The tables are classes. `ExtendableTable` keeps an `array<int>`
  and a `size`; its abstract value is `Data()`, the `data` property, which is
  `buf[..size]`. `BinnableTable` keeps a ghost record of every value counted
  since the factor was set. Its invariant is that the retained counts are
  exactly `np.bincount` of those values divided by the factor.

One quirk of the source is kept as written: an index of `0xFFFFFFFF` writes the
same bytes as no index (`Ptu.AllOnesIndexIsMissing`). The round trip is
therefore stated for the other indices. It also excludes a user tag whose
zero-padded id equals that of `Header_End`, because a reader stops at the first
such tag (`Ptu.Readable`).

## Model

| member | source | states |
|---|---|---|
| Bits.ParseFormatBinary | th260/ptu_format.py:138-141 | parsing the 32-character binary text of a word gives the word back (mod 2^n) |
| Bits.LittleEndianRoundTrip | th260/ptu_format.py:45-51 | unsigned little-endian `to_bytes` is inverted by reading the bytes back |
| Bits.SignedLittleEndianRoundTrip | th260/ptu_format.py:66-68 | signed two's-complement `to_bytes` is inverted by reading back, for every value that fits |
| Records.BinarySlicesAreFields | th260/ptu_format.py:138-178 | the string slices [0:1], [1:7], [7:32], [7:22], [22:32] are the special bit, channel, timetag, dtime and nsync fields |
| Records.ReadT2Record | th260/ptu_format.py:119-152 | special 0 is a photon on channel+1; special 1 with channel 63 is an overflow, 0 a sync, 1..15 a marker; 16..62 raise "Invalid record."; the timetag is the low 25 bits |
| Records.ReadT3Record | th260/ptu_format.py:155-188 | like T2, but channel 0 also raises and there is no sync; dtime is bits 10..24 and nsync the low 10 bits |
| Records.T2PhotonRecord | th260/ptu_format.py:151-152 | every word with the special bit clear reads as a photon on the next channel up, with its timetag |
| Records.T2OverflowRecord | th260/ptu_format.py:142-144 | a word with special 1 and channel 63 reads as an overflow whose timetag is the overflow count |
| Records.T3LowFields | th260/ptu_format.py:174-178 | the low 25 bits of a T3 word are dtime * 0x400 + nsync |
| Buffers.SelectedHeader | th260/ptu_format.py:222-230 | photons select header (channel-1) << 25; sync selects 0x80000000 in T2; T3 refuses sync as an unknown type; the marker header as written is at least 2^32 for every channel from 0 |
| Buffers.MaskByFields | th260/ptu_format.py:232-235 | for a target header spelling special bit s and channel code c, the mask is set exactly at the records whose special bit is s and whose channel code is c |
| Buffers.CumSum | th260/ptu_format.py:237-238 | the running overflow count has one entry per record and stays below 2^32 |
| Buffers.ScanTotal | th260/ptu_format.py:237-243 | the forward scan ends at the running count plus every overflow payload, mod 2^32 |
| Buffers.ScanSelects | th260/ptu_format.py:232-241 | the forward scan keeps exactly the records whose header is the target, in order |
| Buffers.ScanCounts | th260/ptu_format.py:237-240 | the forward scan's counts are the masked cumulative overflow sum |
| Buffers.ScanIsCumSum | th260/ptu_format.py:237-242 | the forward scan yields the masked cumulative sum, the selected records and the total mod 2^32 |
| Buffers.CompressFields | th260/ptu_format.py:240-241 | masking a field array equals taking that field of the masked records |
| Buffers.ReadT2Buffer | th260/ptu_format.py:191-244 | an empty buffer raises; otherwise the counts, timetags and total are the masked cumulative overflow sum, the masked low 25 bits and the last cumulative entry |
| Buffers.ReadT3Buffer | th260/ptu_format.py:247-296 | as T2, with nsync as the overflow payload and dtime/nsync as fields; the three outputs have equal length; sync raises |
| Buffers.HeaderFields | th260/ptu_format.py:211-215 | two headers agree exactly when special bit and channel code agree |
| Buffers.T2OverflowPayload | th260/ptu_format.py:234-238 | what a T2 record adds to the overflow sum is its timetag when read_T2_record calls it an overflow, else 0 |
| Buffers.T3OverflowPayload | th260/ptu_format.py:284-289 | what a T3 record adds to the overflow sum is its nsync when read_T3_record calls it an overflow, else 0 |
| Buffers.T2PhotonSelection | th260/ptu_format.py:222-241 | the records selected for channel c are exactly those read_T2_record reads as photons on c, in order, and the timetags are theirs |
| Buffers.T2SyncSelection | th260/ptu_format.py:227-241 | the records selected as sync are exactly those read_T2_record reads as sync |
| Buffers.T3PhotonSelection | th260/ptu_format.py:274-293 | the records selected for channel c are exactly the T3 photons on c, with their dtime and nsync |
| Buffers.MarkerSelectionEmpty | th260/ptu_format.py:225-226 | the marker header (0x80000000 + channel) << 25 never matches a 32-bit header, so nothing is selected |
| Buffers.NoOverflowSum | th260/ptu_format.py:234-238 | records without the overflow header add nothing to the overflow count |
| Buffers.NoOverflowRecords | th260/ptu_format.py:234-238 | without overflow records every running count is 0 |
| Buffers.T2BufferExample | th260/ptu_format.py:232-244 | [0x5, 0xFE000003, 0x10] on channel 1 gives counts [0, 3], timetags [5, 16], total 3 |
| Ptu.TabString | th260/ptu_format.py:23-27 | the result has exactly the requested length: the bytes, then zeros |
| Ptu.TypeCodeRoundTrip | th260/th260definitions.py:14-26 | each value type has its own type code, so the code identifies the type |
| Ptu.Utf8Ascii | th260/ptu_format.py:41 | an ASCII tag id encodes to one byte per character |
| Ptu.IndexField | th260/ptu_format.py:43-47 | the index is written as 4 bytes that read back little-endian as the index, or as 0xFFFFFFFF (FF FF FF FF) when there is none; indices outside 32 bits raise |
| Ptu.PaddedLength | th260/ptu_format.py:87-88 | the length is rounded up to the next multiple of 8 |
| Ptu.IntegerField | th260/ptu_format.py:66-68 | Bool8/Int8 values are written as 8 signed little-endian bytes that read back to the value; other values or values out of range raise |
| Ptu.WriteTypedTag | th260/ptu_format.py:41-97 | a tag is written exactly when its id fits 32 bytes, its index fits 32 bits and its value suits its type; it is 40 bytes plus the value part |
| Ptu.TypedTagLayout | th260/ptu_format.py:41-97 | a written tag holds the zero-padded id in bytes 0-31, the index field in 32-35 (read back as the index unless it is 0xFFFFFFFF), the type code of its type in 36-39, then the value part |
| Ptu.TagLayout | th260/ptu_format.py:30-97 | a tag is written only for an id in tag_types, and is laid out with the type code of that id's type from tag_types |
| Ptu.WriteTags | th260/ptu_format.py:109-110 | the loop succeeds exactly when every tag can be written (order and content: Ptu.TagsRoundTrip, Ptu.ViewsDescribe) |
| Ptu.EndTagWritten | th260/ptu_format.py:112 | the Header_End tag can always be written |
| Ptu.WritePtu | th260/ptu_format.py:100-116 | the header can be built exactly when every tag can be written, and the file ends with the data unchanged |
| Ptu.ArrayValuePart | th260/ptu_format.py:73-92 | for array types the 8-byte length field holds the payload length (+1 for strings) rounded up to 8, followed by the zero-padded payload; strings keep a NUL |
| Ptu.ValuePartLayout | th260/ptu_format.py:64-92 | fixed types write exactly 8 value bytes; array types write a length field equal to the bytes that follow |
| Ptu.TagFields | th260/ptu_format.py:41-51 | a tag starts with the padded id, the index field and the 4-byte type code, and each reads back |
| Ptu.TypedTagRoundTrip | th260/ptu_format.py:30-97 | reading a written tag gives its id field, index, type code, value field and payload, and leaves the bytes after it |
| Ptu.FixedFieldHolds | th260/ptu_format.py:64-72 | the 8 value bytes of a fixed-size type are zeros for Empty8, read back to the integer for Bool8/Int8, and are the value's image or blob otherwise |
| Ptu.ArrayPayloadHolds | th260/ptu_format.py:73-92 | the payload read back has the declared length, a multiple of 8, begins with the value and is zero-padded |
| Ptu.ViewDescribes | th260/ptu_format.py:41-97 | the tag read back carries the id, index, type code and value that were written |
| Ptu.EndTag | th260/ptu_format.py:112 | the end tag is the bytes write_tag('Header_End', None) produces |
| Ptu.EndTagRead | th260/ptu_format.py:112 | a reader stops at Header_End and returns the following bytes untouched |
| Ptu.TagsRoundTrip | th260/ptu_format.py:109-112 | reading the written tags followed by Header_End gives one parsed tag per tag, in order, then the data |
| Ptu.ViewsDescribe | th260/ptu_format.py:109-110 | every parsed tag carries the id, index, type and value of the tag at the same position |
| Ptu.ReadAfterPreamble | th260/ptu_format.py:105-107 | after the zero-padded 8-byte magic "PQTTTR" and version "1.1.00" the reader goes on to the tags (Ptu.PtuRoundTrip fixes those 16 bytes as WritePtu's first) |
| Ptu.PtuRoundTrip | th260/ptu_format.py:100-116 | a written PTU file reads back as its tags in dict order and then its data |
| Ptu.AllOnesIndexIsMissing | th260/ptu_format.py:43-47 | index 0xFFFFFFFF is written exactly like no index |
| Ptu.Int8Example | th260/ptu_format.py:49-68 | the Int8 type code is written 08 00 00 10 and the value 42 as 2A 00 00 00 00 00 00 00 |
| Histogram.Bins | th260/tttr_result.py:101-102 | each bin is the floor quotient: bin * factor <= value < (bin + 1) * factor |
| Histogram.BincountShape | th260/tttr_result.py:104 | bincount of no values is empty; otherwise it has one entry per bin up to the largest, max + 1 in all |
| Histogram.BincountEntry | th260/tttr_result.py:104 | entry i of bincount is the number of occurrences of i, and a value beyond the entries does not occur |
| Histogram.BincountSplit | th260/tttr_result.py:104-107 | adding the old counts to a batch's counts succeeds exactly when the batch reaches the old largest bin, and then equals the counts of both together |
| Table.CeilLog2 | th260/tttr_result.py:52 | 2^k is the smallest power of two at least n |
| Table.GrownCapacityFits | th260/tttr_result.py:46-59 | the capacity after a resize holds the new size, never shrinks, and is the smallest power of two that holds it when it grew |
| Table.CopyPrefix | th260/tttr_result.py:57-58 | the new array has the new capacity and the first size rows of the old one |
| Table.WriteAt | th260/tttr_result.py:43 | the slice assignment writes xs after the rows in use and keeps them |
| Table.ExtendableTable.constructor | th260/tttr_result.py:22-33 | a new table is empty with capacity 0x100 |
| Table.ExtendableTable.Len | th260/tttr_result.py:61-65 | the length is the number of rows of data |
| Table.ExtendableTable.InnerResize | th260/tttr_result.py:46-59 | data is unchanged; the capacity becomes the smallest power of two at least the new size once that reaches the capacity, and stays otherwise |
| Table.ExtendableTable.Add | th260/tttr_result.py:35-44 | data becomes the old data followed by xs; the capacity stays a power of two at least 0x100 and at least the size |
| Table.ExtendableTable.Remove | th260/tttr_result.py:74-78 | data becomes the old data without its first n rows |
| Table.CountStep | th260/tttr_result.py:101-107 | one bin_count call turns the counts of the values before it into the counts of all values, or raises the shape error |
| Table.BinnableTable.constructor | th260/tttr_result.py:83-89 | a new table has no rows, no counts, read position 0 and the given factor and mode |
| Table.BinnableTable.Add | th260/tttr_result.py:35-44 | rows are appended and the histogram invariant still holds |
| Table.BinnableTable.BinCount | th260/tttr_result.py:91-113 | no factor raises; with nothing new the retained counts are returned unchanged; negative values or a shorter new bincount raise with the state unchanged; otherwise the counts are the bincount of every value consumed since the factor was set, and in only_bin mode the table is emptied and the read position reset |
| Table.BinnableTable.Consume | th260/tttr_result.py:107-112 | after counting, only_bin mode empties the table and rewinds the read position; otherwise the read position moves to the size |
| Table.BinnableTable.SetBinFactor | th260/tttr_result.py:115-121 | only_bin mode raises and changes nothing; otherwise the factor is replaced, counts cleared, read position 0, and data kept |
| Results.Unwrap | th260/tttr_result.py:152-153 | one unwrapped time per selected record, none negative |
| Results.UnwrapFields | th260/tttr_result.py:152-153 | each unwrapped time divides back into accumulated plus per-record overflows, with the low field as remainder |
| Results.T2DecodedShape | th260/tttr_result.py:149-153 | the decoded counts and timetags line up and each timetag is below 0x2000000 |
| Results.T2Unwrapped | th260/tttr_result.py:149-153 | every time T2Result appends is (acc + n_k) * 0x2000000 + timetag_k, and divides back into both |
| Results.T3Unwrapped | th260/tttr_result.py:211-215 | every sync count T3Result appends is (acc + n_k) * 0x400 + nsync_k, and divides back into both |
| Results.T2Result.constructor | th260/tttr_result.py:124-143 | the accumulator starts at 0 and the time-tag table is an empty binnable table with the given factor |
| Results.T2Result.AddBuffer | th260/tttr_result.py:145-155 | decoding errors propagate with nothing changed; otherwise the table grows by the unwrapped times, in order, and the accumulator by the buffer total; the table's array is the old one or a new one, so calls chain |
| Results.T2Result.BinCount | th260/tttr_result.py:178-180 | bin_count of the time tags, with the table's contract: no factor raises; nothing new returns the retained counts unchanged; negative values or a shorter new bincount raise with nothing changed; otherwise the counts are the bincount of everything consumed, which grows by the new rows, and only_bin mode empties the table |
| Results.T2Session | th260/tttr_result.py:145-155 | two buffers added to a new T2Result: the overflows of the first carry into the times of the second, and the accumulator holds both totals |
| Results.T2SessionCounts | th260/tttr_result.py:145-180 | after two buffers that decode, bin_count with factor 1 succeeds and is the histogram of every time added |
| Results.T3Result.constructor | th260/tttr_result.py:189-205 | empty sync and dtime tables, accumulator at 0 |
| Results.T3Result.AddBuffer | th260/tttr_result.py:207-218 | the sync table grows by the unwrapped sync counts and the dtime table by the dtimes, both by the same count; the accumulator grows by the total; each table's array is the old one or a new one, so calls chain |
| Results.T3Result.BinCount | th260/tttr_result.py:246-248 | bin_count of the sync counts, with the same error, idempotence, consumption and only_bin clauses as the table's |
| Results.T3ResultAsWritten.constructor | th260/tttr_result.py:189-205 | as written, the accumulator is never set |
| Results.T3ResultAsWritten.AddBuffer | th260/tttr_result.py:207-218 | as written, a buffer that decodes fails at the missing accumulator |
| Results.T3FirstBuffer | th260/tttr_result.py:207-218 | a new T3Result as written refuses its first buffer, and the corrected class accepts it |

## Left out

- th260/th260.py is not part of this model. It holds the ctypes calls into the device library, locks, FIFO reads, threads and sleeps.
- tttrmode.py and setup.py are not part of this model. They are an interactive script and packaging.
- th260/th260definitions.py is used only for its constants: `type_code`, `tag_types`, the field widths, the magic and version strings.
- Floating point is not modelled:
  - `struct.pack("<d", ...)`: a `Float8` value, and each element of a `Float8Array`, is given as its 8-byte image.
  - `time_s`, `difftime_s`, `sync_time_s` and `dtime_s`.
  - The computation of `bin_factor` from `bin_time`: the bin factor is a given positive integer.
- Ptu.WriteTypedTag: an int given for a `Float8` tag is refused rather than converted to a float, because float packing is not modelled.
- Text tag values carry the bytes of their UTF-8 encoding. `Wide-String` tags are likewise written from their UTF-8 bytes, as the source does. Tag ids are encoded to UTF-8 inside the model.
- Ptu.BlobSized: the round trip assumes 8-byte values for `BitSet64`/`Color8`/`TDateTime`. The source writes any byte string there without checking its length.
- `write_ptu` opens and writes a file. Only the byte sequence it writes is modelled.
- Record-type selectors are a datatype. The `RuntimeError` for an unknown `rtype` string is kept only for `sync` in T3.
- `ExtendableTable`'s `ndim` (2-D rows) and `dtype` widths are not modelled. Rows are unbounded integers, so int64 overflow of an unwrapped time is not modelled.
- Table.CeilLog2: computed exactly. `np.log2` in floating point could round for sizes near 2^53.
- Table.ExtendableTable.InnerResize: the new array is zero-filled where `np.empty` leaves it uninitialised. Those rows are beyond `size` and never read.
- Table.ExtendableTable.Remove: requires n <= size. For larger n the source fails on a shape mismatch, and its only caller passes the size.
- Results.T2Result.AddBuffer: the accumulator `_n_overflows` is unbounded. It starts as a Python int and `+=` adds a `uint32` numpy scalar, so under NumPy 2 (NEP 50) it becomes `uint32` and wraps at 2^32, and under NumPy 1 it becomes int64; no NumPy version is pinned, so neither width is modelled.
- Results.T3Result.AddBuffer: the same holds for its accumulator (the corrected one that starts at 0).
- Table.BinnableTable.BinCount: returns the counts as a value. The source returns the array object it keeps, so a caller that mutates the result changes the retained counts; that aliasing is not modelled.
- Results.T3Result.constructor: takes the bin factor directly. With the default `bin_time=None` the source fails computing it (th260/tttr_result.py:201).
- The `timetags` and `nsyncs` properties (th260/tttr_result.py:157-162, 221-225) return the table's `.data`, which is `Data()` here; `bin_time` returns the constructor argument. None of these is a separate member.
- Results.T3Result: the `dtimes` property (th260/tttr_result.py:227-232) returns the `ExtendableTable` object `_dtimes` itself, not its rows as `nsyncs` does. So `dtime_s` (line 244) multiplies a table object by a float, which is a source quirk that was not executed. The model does not expose that object as a value: a caller reads the rows as `dtimes.Data()`.

## Findings

| source | as written | input that shows it | evidently intended | confidence | as-written member | corrected member |
|---|---|---|---|---|---|---|
| th260/tttr_result.py:214 | `T3Result.__init__` (lines 189-205) never assigns `self._n_overflows`, so `add_buffer` raises AttributeError for every buffer that decodes | a new T3Result on channel 1 given the buffer [0x00000005] | start the accumulator at 0, as `T2Result.__init__` does at line 143 | high; not executed | Results.T3ResultAsWritten.AddBuffer, Results.T3FirstBuffer | Results.T3Result.AddBuffer, Results.T3Unwrapped |
