# debanner in Dafny

debanner splits a Nintendo 3DS banner file into its two parts. The banner is a
CBMD container followed directly by a BCWAV sound file. The CBMD container
starts with a 0x88-byte header of 34 little-endian 32-bit words. Word 0 is the
signature `CBMD`, and word 0x21 (byte offset 0x84) is the CBMD length, header
included. The tool checks the signature and the length, writes the CBMD region
to `<stem>.cbmd`, then checks that the rest starts with `CWAV` and writes it to
`<stem>.bcwav`. It derives the output names with `replaceFileType`, which swaps
the part of the input name from its last `.` onward for the new type. A `.` at
index 0 is ignored, because the search stops before that index. When no `.` is
found, the type is appended to the whole name.

The project has four modules:

- `Wrappers` (wrappers.dfy): the `Option` datatype.
- `ByteOrder` (byte_order.dfy): the `MAGIC` macro, little-endian words, and the decoding of a byte buffer into words and back.
- `FileType` (file_type.dfy): `replaceFileType`, as a method with its search loop and a specification function `Replaced`.
- `Banner` (banner.dfy): the extraction in `main` as the pure function `Extract` over the file's bytes. `Debanner` is a run of the tool: the files it writes, in order, and its exit status.

I/O is removed. The file's contents are a parameter, and the written files are returned as values.
The header buffer is an uninitialised stack array. When the file is shorter than 0x88 bytes, `fread` leaves part of it unfilled. Those earlier contents are the parameter `stale`. `ShortInputNoOutput` proves that such a file never produces output in the model, whatever `stale` holds. This rests on the `LengthTooShort` rejection below. In the C code, leftover bytes that pass the magic check with a length no greater than the file length reach the wrap-around at debanner.c:117. The C code then creates `<stem>.cbmd` before its oversized write.

Where this model departs from the code:

- A declared CBMD length below 0x88 makes the C code's `cbmdlen - CBMD_HEADER_SIZE` wrap around. The model rejects it with `LengthTooShort`, checked right after the length-against-file check.
- When fewer than four bytes follow the CBMD region, the C code reads past its buffer for the CWAV check. The model treats this as a CWAV mismatch (`CorruptCwav`).
- The C code compares `unsigned int` values read in host byte order. The model decodes them little-endian, the byte order of the format.
- `replaceFileType` leaves `rootlen` uninitialised when the name has no `.`. The model starts it at 0, which gives the behaviour the comment after the loop describes: the whole name is kept.

## Model

| member | source | states |
|---|---|---|
| `ByteOrder.MagicIsLittleEndian` | debanner.c:28 | `MAGIC(c1,c2,c3,c4)` stores c1 in the least significant byte. Its little-endian bytes are exactly c1, c2, c3, c4. |
| `ByteOrder.Magic` | debanner.c:28 | `MAGIC(c1,c2,c3,c4)` is a 32-bit word whose lowest byte is c1 and whose highest byte is c4. |
| `ByteOrder.DecodeWords` | debanner.c:100 | Reading a buffer into an `unsigned int` array gives one word per four bytes. |
| `ByteOrder.EncodeWords` | debanner.c:134 | Writing an `unsigned int` array gives four bytes per word. |
| `ByteOrder.WordBytesOfLE32` | debanner.c:100 | Decoding four bytes into an `unsigned int` and writing it out again gives back the same four bytes. |
| `ByteOrder.LE32OfWordBytes` | debanner.c:134 | Writing a word as four bytes and reading it back gives the same word. |
| `ByteOrder.LE32Injective` | debanner.c:102 | Two 4-byte groups decode to the same word exactly when they are equal, so a word comparison is a byte comparison. |
| `ByteOrder.DecodeWordsAt` | debanner.c:100-109 | Element i of the word array read from a buffer is the little-endian word at byte offset 4*i. So `cbmdheader[0x21]` is the word at offset 0x84. |
| `ByteOrder.EncodeDecode` | debanner.c:100-134 | Writing the header's word array back out (the first `fwrite`) reproduces the bytes that were read, byte for byte. |
| `ByteOrder.DecodeEncode` | debanner.c:100-134 | Reading back an encoded word array gives the same words. |
| `FileType.LastDotBelow` | debanner.c:47-54 | The search finds the greatest index at or above 1 and below the bound that holds a '.', with no '.' after it. It finds 0 when there is no such index, so a '.' at index 0 is never matched. |
| `FileType.RootLength` | debanner.c:47-58 | `rootlen` is the whole length exactly when no '.' sits at index 1 or beyond. Otherwise it is an index of at least 1 that holds a '.', with no '.' after it. |
| `FileType.Replaced` | debanner.c:58-68 | The result ends with the type, and before the type it has a prefix of the name. The prefix is the whole name exactly when no '.' sits at index 1 or beyond. Otherwise it stops just before the last such '.'. |
| `FileType.ReplaceFileType` | debanner.c:40-71 | The search loop and the copy give `Replaced(filename, type)`. The result has length rootlen + typelen, starts with the first rootlen characters of the name and ends with the type. |
| `FileType.ReplacedWithDot` | debanner.c:47-68 | With a '.' at index d >= 1 and no '.' after it, the result is the name before d followed by the type. |
| `FileType.ReplacedWithoutDot` | debanner.c:55-68 | With no '.' at any index >= 1, the type is appended to the whole name. |
| `FileType.ReplaceTwice` | debanner.c:40-71 | For a non-empty name, replacing its type with a type that starts with its only '.', and then replacing again, gives the same name as the second replacement alone. |
| `FileType.ExampleWithType` | debanner.c:40-71 | "banner.bin" with ".cbmd" gives "banner.cbmd". |
| `FileType.ExampleWithoutType` | debanner.c:55-68 | "banner" with ".bcwav" gives "banner.bcwav". |
| `FileType.ExampleLeadingDot` | debanner.c:47-58 | ".bnr" with ".cbmd" gives ".bnr.cbmd": a '.' at index 0 does not start a type. |
| `Banner.ReadHeader` | debanner.c:100 | The header buffer holds the file's first 0x88 bytes. When the file is shorter, it begins with the whole file. |
| `Banner.HeaderWords` | debanner.c:100-109 | The header has 0x22 words. Word 0 is the little-endian word in bytes 0-3, and word 0x21 is the one in bytes 0x84-0x87. |
| `Banner.HeaderOfFile` | debanner.c:100-109 | For a file holding a whole header, the magic and the length the run reads are those stored in the file. |
| `Banner.Extract` | debanner.c:96-168 | A `.bcwav` output is produced only together with a `.cbmd` output. The run succeeds exactly when the `.bcwav` is produced. A CWAV failure is exactly the case with a `.cbmd` output and no `.bcwav` output. The `.cbmd` output is the prefix of the file of the declared length, which is at least 0x88. On success, the two outputs concatenated give the input. |
| `Banner.StartsWithCwav` | debanner.c:150 | The CWAV check passes exactly when the region's first four bytes are "CWAV". A region shorter than four bytes fails it. |
| `Banner.SignatureBytes` | debanner.c:102 | A region passes a magic check exactly when its first four bytes are the ASCII letters "CBMD" (or "CWAV"). |
| `Banner.RejectsCorruptCbmd` | debanner.c:101-107 | A wrong CBMD magic ends the run with `CorruptCbmd` and no output. |
| `Banner.RejectsLengthTooLong` | debanner.c:109-115 | A declared length greater than the file length ends the run with `LengthTooLong` and no output. |
| `Banner.RejectsLengthTooShort` | debanner.c:117 | A declared length below 0x88 ends the run with `LengthTooShort` and no output. The C code would wrap around here instead. |
| `Banner.ShortInputNoOutput` | debanner.c:100-117 | A file shorter than the header produces no output and fails, whatever the unfilled header bytes hold. |
| `Banner.CbmdRegion` | debanner.c:117-135 | The `.cbmd` output is the input's first `cbmdlen` bytes (header, then payload). It is `cbmdlen` bytes long and begins with the input's 0x88-byte header. |
| `Banner.BcwavRegion` | debanner.c:141-168 | The `.bcwav` output is the input from `cbmdlen` to the end. It is `filelen - cbmdlen` bytes long and starts with the CWAV magic. |
| `Banner.SucceedsIffWellFormed` | debanner.c:96-168 | The run succeeds exactly on well-formed banners: CBMD magic, 0x88 <= `cbmdlen` <= `filelen`, and CWAV at `cbmdlen`. |
| `Banner.CorruptCwavKeepsCbmd` | debanner.c:134-154 | With a good header and length but no CWAV after the CBMD region, the `.cbmd` output is still produced (the input's first `cbmdlen` bytes), with no `.bcwav` output and the error `CorruptCwav`. |
| `Banner.SplitConcatenation` | debanner.c:109-168 | Splitting inverts concatenation. A CBMD file whose length word equals its length, followed by a CWAV-signed file, splits back into exactly those two files with no error. |
| `Banner.StaleIrrelevant` | debanner.c:100 | When the file holds a whole header, the earlier contents of the header buffer do not affect the outcome. |
| `Banner.Debanner` | debanner.c:73-175 | A run writes at most two files, the `.cbmd` file first and the `.bcwav` file second, each named by `replaceFileType` on the input name. It exits 0 exactly when both were written. Any written `.cbmd` file holds input[0, cbmdlen), with cbmdlen no greater than the file length. On success the two contents concatenated give the input. |
| `Banner.DebannerSucceeds` | debanner.c:73-175 | A run exits 0 exactly on well-formed banners. It then writes `<stem>.cbmd` holding input[0, cbmdlen) and `<stem>.bcwav` holding input[cbmdlen, filelen). |
| `Banner.DebannerFails` | debanner.c:100-154 | A bad magic, or a declared length outside [0x88, file length], writes no file and exits 1. A failed CWAV check writes only `<stem>.cbmd` holding input[0, cbmdlen), and exits 1. |

## Left out

- File I/O (`fopen`, `fseek`, `ftell`, `fread`, `fwrite`, `fclose`): the input is a byte sequence and the outputs are values. The errors for an input that cannot be opened or an output that cannot be created are not modelled.
- The usage text, the argument-count check and the texts of the error messages are not modelled. Errors are the enumeration `Error`, and every error gives exit status 1.
- `malloc` failures (in `replaceFileType` and for the two data buffers) are not modelled: they concern allocation, not the format.
- Short reads of the payload and of the BCWAV data are not modelled. Once the length checks pass, the file holds every byte that is requested.
- `FileType.ReplaceFileType` returns a sequence rather than a freshly allocated, NUL-terminated buffer. The two strings are their characters up to the terminator. Names are sequences of Unicode characters, while the C code works on bytes. Lengths such as rootlen + typelen therefore count characters, and names that are not valid text cannot be represented. The search for the last '.' is unaffected, because '.' is a single ASCII byte.
- Banner.Extract: does not reproduce the wrap-around of `cbmdlen - 0x88` when the declared length is below 0x88, or the out-of-bounds 4-byte read when fewer than four bytes follow the CBMD region. These cases are rejected instead, as described above.
