# ReiX slice reader and display, in Dafny

ReiX is a command-line hex viewer: `ReiX_cli [options] <file> [start:end | pos]`
prints a byte range of a file either as a table (line label, 16 hex cells,
ASCII column) or as one unbroken stream of hex digits. This project models
its core and proves properties of the model:

- `slice_file_reader.dfy` (module `Slice`): range resolution of
  `SliceFileReader::new_from_path` as a pure function `ResolveRange` over an
  optional start, an optional end and the file size. It includes the i64
  arithmetic and the `as u64` reinterpretation, so a bound that falls before
  the start of the file wraps to a huge value. The reader itself is a class
  `SliceFileReader` with the source's `start`, `end` and `current` fields;
  `Read` fills an `array<u8>` and moves the cursor.
- `reix_cli.dfy` (module `Cli`): `parse_range` (with Rust's i64 `parse` and
  `split(':')`) and `parse_args` (a loop over the argument list), with the
  meaning of the argument scan stated declaratively.
- `reix_render.dfy` (module `Render`): what `ReiX` and `ReiX_inline` print,
  as pure functions of the slice bytes (`Table`, `InlineHex`). The display
  loops are methods that drive the reader and are proved to produce exactly
  that text.
- `bytes.dfy` (module `Bytes`): `u8`, `Option`, `Result`, and the i64/u64
  conventions.

The file system is replaced by the file's contents: the reader holds a
`seq<u8>` standing for the open handle. A file that cannot be opened is
`None` where `NewFromPath` takes its file. A `panic!` becomes an `Err`
result. The text printed with `print!` is modelled as the string a method
returns: it is the concatenation of everything printed, in order.

Two behaviours of the code are worth stating directly:
- The line label is the line index (0, 1, 2, …), not a byte offset. Its
  width is the hex digit count of `len / 16`.
- In a `start:end` token, a side that is not an integer is taken as absent.
  Only a colon-free token that is not an integer is an error.

## Model

| member | source | states |
|---|---|---|
| `Slice.ResolveBound` | src/slice_file_reader.rs:37-42 | a non-negative bound is kept; a negative one becomes file size + value; one that lands before the file start becomes file size + value + 2^64 (the u64 reinterpretation), which is beyond the i64 range |
| `Slice.ResolveRange` | src/slice_file_reader.rs:35-51 | with s and e the resolved bounds: s > e gives InvalidRange(s, e) whatever the file size (this check comes first); otherwise e > file size gives OutOfBounds(s, e, file size); otherwise the range [s, e), with s <= e <= file size |
| `Slice.ResolveRangeMeaning` | src/slice_file_reader.rs:35-51 | resolution succeeds exactly when the plain offsets satisfy 0 <= start <= end <= file size, and then yields those offsets; the wrap-around never admits a bad range |
| `Slice.ResolveWholeFile` | src/slice_file_reader.rs:35-36 | no start and no end resolve to [0, file size) |
| `Slice.ResolveNegativeBounds` | src/slice_file_reader.rs:37-42 | negative bounds inside the file resolve to file size + value |
| `Slice.ResolveWrapExamples` | src/slice_file_reader.rs:37-50 | -20..-15 on a 10-byte file passes the order check and fails the bounds check; -20..3 fails the order check; 5..-20 fails the bounds check |
| `Slice.SliceFileReader.constructor` | src/slice_file_reader.rs:52-57 | the reader is built on a checked range with the cursor at start |
| `Slice.SliceFileReader.Len` | src/slice_file_reader.rs:63-65 | the length is the size of the slice [start, end), independent of file size and cursor |
| `Slice.SliceFileReader.Read` | src/slice_file_reader.rs:67-82 | delivers k = min(buffer length, end - current) bytes equal to file[current..current+k] into the front of the buffer; the rest of the buffer is untouched; the cursor advances by k and stays within [start, end]; at the end it returns 0 and changes nothing |
| `Slice.ReadAt` | src/slice_file_reader.rs:78-79 | seek-and-read copies file[pos..pos+n] into the buffer front and leaves the rest unchanged |
| `Slice.NewFromPath` | src/slice_file_reader.rs:28-61 | an unopenable file fails; a range that fails resolution fails with that reason; otherwise a fresh valid reader over the resolved range with the cursor at start |
| `Slice.ReadToEnd` | src/reix_cli.rs:151-154 | reading with a non-empty buffer until a read returns 0 delivers exactly the bytes from the cursor to end, in order, and leaves the reader exhausted |
| `Cli.ParseI64` | src/reix_cli.rs:109 | a parsed token is non-empty, colon-free and within the i64 range; one without a minus sign is non-negative |
| `Cli.ParseDecimalString` | src/reix_cli.rs:109 | parsing the decimal rendering of any i64 gives that value back |
| `Cli.Split` | src/reix_cli.rs:115 | the parts contain no colon, joined with ':' they give the token back, and there are at least two exactly when the token has a colon |
| `Cli.ParseRange` | src/reix_cli.rs:104-129 | bounds produced are i64 values; the result is an error exactly for a non-empty, colon-free token that is not an integer, and the error carries that token |
| `Cli.Side` | src/reix_cli.rs:116-125 | one side of a colon token is absent exactly when it is empty or not an integer; a present side is a colon-free i64 |
| `Cli.ParseRangeEmpty` | src/reix_cli.rs:105-106 | the empty token gives (None, None) |
| `Cli.ParseRangePosition` | src/reix_cli.rs:108-113 | a colon-free token that parses as N (in any form the parser accepts, such as "+05") gives (N, N+1), except -1, which gives (-1, None); N = i64::MAX gives (N, i64::MIN) by the wrap of N + 1 |
| `Cli.ParseRangePair` | src/reix_cli.rs:114-126 | a token a:b gives start from a and end from b; an empty or non-integer side is None |
| `Cli.ParseRangeIgnoresRest` | src/reix_cli.rs:114-126 | in a token a:b:rest only a and b count; whatever follows the second colon is ignored |
| `Cli.LeadingOptions` | src/reix_cli.rs:46-49 | the count of leading option arguments is at most the argument count, and the argument right after them does not start with '-' |
| `Cli.LeadingOptionsAreOptions` | src/reix_cli.rs:46-49 | every argument before that count starts with '-' |
| `Cli.FirstNonEmpty` | src/reix_cli.rs:65-67 | the position of the first non-empty positional argument: the argument there is non-empty |
| `Cli.FirstNonEmptySkipsEmpty` | src/reix_cli.rs:65-67 | every positional argument before that position is empty, so it leaves the file path empty |
| `Cli.ApplyOption` | src/reix_cli.rs:49-62 | an option argument turns help and inline on, and line numbers and ASCII off, exactly when it contains h, i, n or c; a flag it does not mention keeps its value |
| `Cli.FlagsOfMeaning` | src/reix_cli.rs:42-62 | help and inline are on, and line numbers and ASCII are off, exactly when some option argument contains h, i, n or c respectively |
| `Cli.ParseArgs` | src/reix_cli.rs:37-78 | skipping the program name, options count only before the first positional argument; the flags are as the option letters say; the file path is the first non-empty positional argument and the range is the last positional argument after it |
| `Cli.PositionSelectsOneByte` | src/reix_cli.rs:108-113 | a position token N with -file size <= N < file size and N != -1 resolves to exactly one byte: [N, N+1) for N >= 0, [file size + N, file size + N + 1) for N < 0 |
| `Cli.MinusOneSelectsLastByte` | src/reix_cli.rs:110-111 | "-1" selects the last byte of a non-empty file and is an invalid range on an empty file |
| `Cli.PositionExample` | src/reix_cli.rs:108-113 | "5" and "+05" both give (5, 6), and on a 10-byte file that selects [5, 6) |
| `Cli.OpenEndExample` | src/reix_cli.rs:114-126 | "2:" on a 10-byte file selects [2, 10) |
| `Cli.OpenStartExample` | src/reix_cli.rs:114-126 | ":-2" on a 10-byte file selects [0, 8) |
| `Render.Hex2` | src/reix_cli.rs:162 | a byte prints as exactly two uppercase hex digits whose value is the byte |
| `Render.HexUpper` | src/reix_cli.rs:157 | a number prints as uppercase hex digits with no leading zero whose value is the number |
| `Render.HexUpperLengthMonotone` | src/reix_cli.rs:149-150 | a larger line index never needs more digits than the width computed from len / 16 allows |
| `Render.LineLabelShape` | src/reix_cli.rs:156-158 | a label is "0x", the index zero-padded to the width, then two spaces; its digits read back as the line index |
| `Render.TableLabelsAligned` | src/reix_cli.rs:148-158 | every line of a slice's table has a label of the same length |
| `Render.LabelWidth` | src/reix_cli.rs:149-150 | the label width is at least one digit, exactly one for slices shorter than 256 bytes and at least two otherwise |
| `Render.LineLabel` | src/reix_cli.rs:157 | a label starts with "0x", ends with two spaces and is at least as wide as both the width and the index digits plus those four characters |
| `Render.HexCellsAt` | src/reix_cli.rs:160-163 | cell i of the hex column is byte i in hex followed by a space |
| `Render.HexCells` | src/reix_cli.rs:160-163 | the cells of a line are three characters per byte |
| `Render.HexColumn` | src/reix_cli.rs:160-168 | the hex column of a line of at most 16 bytes is 48 characters: three characters per byte, the byte in two hex digits then a space, then spaces for every missing byte |
| `Render.AsciiChar` | src/reix_cli.rs:174-178 | a byte shows as itself exactly when it is in 0x20..0x7E, otherwise as '.' |
| `Render.AsciiTextAt` | src/reix_cli.rs:173-179 | character i of the ASCII column renders byte i |
| `Render.AsciiText` | src/reix_cli.rs:173-179 | the ASCII column has one character per byte |
| `Render.FormatLineShape` | src/reix_cli.rs:156-182 | a line of at most 16 bytes is the label when shown, the 48-character hex column, a space and one character per byte when ASCII is shown, and a final newline |
| `Render.Table` | src/reix_cli.rs:151-190 | the table has at least the three hex-column characters of every byte of the slice |
| `Render.TableUnfold` | src/reix_cli.rs:151-190 | a non-empty table is the line of its first min(16, len) bytes, numbered `line`, followed by the table of the remaining bytes numbered from line + 1 |
| `Render.TablePlainLength` | src/reix_cli.rs:151-184 | with labels and ASCII off, the table is 49 characters per 16-byte line |
| `Render.InlineHexRoundTrip` | src/reix_cli.rs:216-219 | the inline stream decodes back to the slice bytes |
| `Render.InlineHex` | src/reix_cli.rs:216-219 | the stream is two characters per byte, and characters 2i and 2i+1 are byte i in uppercase hex |
| `Render.InlineHexAppend` | src/reix_cli.rs:202-222 | the stream of a concatenation is the concatenation of the streams, so chunking does not change the output |
| `Render.OneByteTable` | src/reix_cli.rs:156-182 | the table of the byte 0x41 is "0x0  41", padding, and " A" |
| `Render.InlineExample` | src/reix_cli.rs:216-219 | the stream of 0A FF 00 is "0AFF00" |
| `Render.FormatBufferLine` | src/reix_cli.rs:156-182 | a line built from a read buffer is the formatted line of the bytes read |
| `Render.ReiX` | src/reix_cli.rs:132-192 | the output is the inline stream or the table of the bytes still to read, labels sized from the slice length; the reader ends exhausted |
| `Render.ReiXTable` | src/reix_cli.rs:143-191 | table mode prints exactly the table of the bytes still to read, one line per read of 16 bytes |
| `Render.ReiXInline` | src/reix_cli.rs:195-223 | inline mode prints exactly the hex stream of the bytes still to read; the branch for a running total that reaches the slice length prints the same bytes |

## Left out

- File system calls (`File::open`, `metadata`, `BufReader`, `seek`): the file is its contents; a failure to open is `None`. A failing `metadata()` is not modelled.
- Short or failing OS reads and I/O errors: `Read` always delivers min(buffer length, end - current) bytes. The `while let Ok(..)` loops that stop silently on an I/O error are not modelled.
- `Slice.NewFromPath` requires a file size that fits in i64, as every real file does. Larger sizes would make `file_size as i64` wrap, and that is not modelled.
- `Slice.ReadToEnd` requires a non-empty buffer: with an empty buffer `read` returns 0 before the end of the slice. The viewer's buffers hold 16 and 1024 bytes.
- Process termination by `panic!`/`unwrap`: modelled as `Err` results (`OpenError`, `RangeParseError`).
- `main` and `help`: printing and control flow only. Note that `main` parses the range before it checks for `-h` or a missing path.
- `print!` and the flush cadence (every 16 lines, every 1024-byte chunk): the methods return the concatenated text.
- `std::env::args`: the arguments are a `seq<string>`.
- `Cli.ParseRange`: in `tmp + 1` for a position equal to i64::MAX, Rust panics in a debug build. The model follows a release build, which wraps to i64::MIN. Either way the range is later refused.
- `Cli.ParseI64`: the i64 grammar is decimal only: an optional sign, then ASCII digits.
