# npy_parser in Dafny

npy_parser reads NumPy `.npy` files that hold a one- or two-dimensional array of
little-endian 64-bit integers (`<i8`) or doubles (`<f8`). It works in three
stages, each modelled here:

- **Header check.** `check_header` compares bytes 1..5 of the file with `NUMPY`.
- **Metadata parser.** `populate_metadata` reads the 118-character dictionary
  window at offset 10. It runs a character state machine over it: expect
  `{`, then a key or `}`, then a value or `,`, then nothing. For each
  completed `'descr'` pair it sets `num_type` (1 for `<i8`, 2 for `<f8`). For each completed `'shape'`
  pair it re-scans the value for `rows` and `cols`.
- **Payload populators.** `populate_vector`, `populate_lookup_table` and
  `populate_lookup_row` read 8-byte words from offset 128. They decode each
  word with `decode_integer` or `decode_double`, whichever `num_type` selects,
  into a vector, a rows x cols matrix (row-major), or one matrix row.

The file is an immutable byte sequence, and each `seekg` plus `read` is a slice
of it. The magic and dictionary reads require their bytes to be present
(`CheckHeader` needs 6 bytes, `Window` 128). The payload reads go through
`Populators.Read`, which shortens the slice when the file ends early. Each stage is a
pure specification function plus, where the C++ code loops, a method:

- `MetadataParser.PopulateMetadata` is proved to compute
  `MetadataParser.ParseMetadata`.
- The three populator methods are proved to fill their fresh arrays exactly
  as `VectorResult`, `TableResult` and `RowResult` say.

Lemmas then state what those functions promise. Among them:

- the machine is a fold, and ignores text before `{` and after `}`;
- which pairs change which field, and how a worked example dictionary parses;
- what the shape forms `(r,c)`, `(n,)` and `()` give;
- decoding and encoding are mutual inverses;
- the table is the vector laid out row-major;
- a row agrees with the table;
- a payload of encoded values decodes back to them, and the decoded values re-encode to
  the payload.

Modules:

- `Format`: constants, the `Metadata` record, errors.
- `CText`: C strings, `strcmp`/`strcpy` as operations on the text before the
  first NUL, and `atoi`.
- `Decoders`
- `Header`
- `MetadataParser`
- `Scenarios`: a worked dictionary.
- `Populators`

The three exceptions (`NPYPARSER_HEADER_ERROR`, `NPYPARSER_INDEX_ERROR`, and
the unhandled-type condition) are the `Error` values of a `Result`.

One might expect shape `()` to give a 1 x 1 array. The code
(npy_parser.cpp:112-119) only meets `)` with an empty buffer, so it sets cols
to 1 and leaves rows as it was (`MetadataParser.ShapeOfEmpty`).

## Model

| member | source | states |
|---|---|---|
| CText.CStr | npy_parser.cpp:71-72 | the string `strcpy`/`strcmp` see is a prefix without NUL, ended by the first NUL of the buffer if there is one |
| CText.Atoi | npy_parser.cpp:109 | for a string of decimal digits, `atoi` gives its decimal value |
| CText.DecimalRoundTrip | npy_parser.cpp:117 | `atoi` of the decimal rendering of n is n |
| Decoders.DecodeEncode | npy_parser.cpp:8 | reading back n little-endian bytes written from x gives x (`le64toh`) |
| Decoders.EncodeDecode | npy_parser.cpp:19 | writing back the value of a little-endian byte string gives the same bytes |
| Decoders.SignBit | npy_parser.cpp:9 | a word is at least 2^63 exactly when the top bit of its last byte is set |
| Decoders.DecodeInteger | npy_parser.cpp:3-12 | the result is a signed 64-bit value: the little-endian word, minus 2^64 when its sign bit is set (two's complement) |
| Decoders.DecodeDouble | npy_parser.cpp:14-23 | the result is the 64-bit pattern the double is read from, below 2^64 |
| Decoders.IntegerRoundTrip | npy_parser.cpp:3-12 | every int64 value survives encoding then decode_integer |
| Decoders.IntegerBytesRoundTrip | npy_parser.cpp:3-12 | every 8-byte word survives decode_integer then encoding: distinct words decode to distinct integers |
| Decoders.DoubleRoundTrip | npy_parser.cpp:14-23 | every 64-bit pattern survives encoding then decode_double |
| Decoders.DoubleBytesRoundTrip | npy_parser.cpp:14-23 | every 8-byte word survives decode_double then encoding |
| Header.CheckHeader | npy_parser.cpp:25-33 | true exactly when bytes 1..5 of the file are `N U M P Y` |
| MetadataParser.Window | npy_parser.cpp:39-42 | the dictionary text is 118 characters taken from offset 10 |
| MetadataParser.Dispatch | npy_parser.cpp:89-125 | a completed pair changes rows/cols only for key `shape` and num_type only for key `descr`; `descr` with `<i8` gives 1, with `<f8` gives 2, any other value leaves num_type as it was |
| MetadataParser.PopulateMetadata | npy_parser.cpp:35-142 | the loop over the 118 characters, with its nested shape loop (PopulateShape), leaves the record that the character-by-character specification ParseMetadata gives |
| MetadataParser.PopulateShape | npy_parser.cpp:99-124 | the loop over the characters of a `shape` value leaves the record that the specification ScanShape gives |
| MetadataParser.RunLexer | npy_parser.cpp:58-140 | the lexer variables never depend on the record being filled in |
| MetadataParser.RunAppend | npy_parser.cpp:58-140 | reading p then q is reading p + q: the machine is a fold over the characters |
| MetadataParser.RunOne | npy_parser.cpp:58-140 | reading one character is one loop iteration |
| MetadataParser.OpenWaits | npy_parser.cpp:60-66 | while `{` has not been read, characters other than `{` change nothing |
| MetadataParser.BeforeOpenIgnored | npy_parser.cpp:60-66 | text before the first `{` has no effect on the parsed record |
| MetadataParser.NothingIgnoresRest | npy_parser.cpp:59-139 | after the closing `}` (state 3) every further character is ignored |
| MetadataParser.CloseEndsParsing | npy_parser.cpp:68-69 | a `}` read where a key is expected makes the record final: whatever follows changes nothing |
| MetadataParser.NoCommaNoDispatch | npy_parser.cpp:83-125 | text without a comma never changes the record |
| MetadataParser.TokensStayClean | npy_parser.cpp:77 | spaces and single quotes never enter a key, a value or the buffer |
| MetadataParser.BufBound | npy_parser.cpp:54-137 | the token buffer never holds more characters than the text read so far has characters other than space and `'` |
| MetadataParser.ShortTextFits | npy_parser.cpp:54-57 | a dictionary with fewer than 100 such characters never fills the 100-character buffers |
| MetadataParser.StoreRun | npy_parser.cpp:130-137 | ordinary characters append exactly their non-space, non-quote part to the buffer |
| MetadataParser.CommaInParensKept | npy_parser.cpp:131-134 | inside an open parenthesis a comma is part of the value and dispatches nothing |
| MetadataParser.KeyRun | npy_parser.cpp:70-76 | a key then `:` makes the stripped key current and starts a value |
| MetadataParser.AtomEntry | npy_parser.cpp:83-129 | `key: value,` with a plain value dispatches the pair (stripped key, stripped value) and waits for the next key |
| MetadataParser.ParenRun | npy_parser.cpp:131-136 | a parenthesised group is stored whole, commas included, and leaves the parenthesis closed |
| MetadataParser.TupleValueRun | npy_parser.cpp:130-137 | a value `pre(inner)` leaves its stripped text in the buffer |
| MetadataParser.CommaDispatches | npy_parser.cpp:83-88 | a comma outside parentheses moves the buffer to last_val, dispatches the pair and empties the buffer |
| MetadataParser.TupleEntry | npy_parser.cpp:83-137 | `key: pre(inner),` dispatches the whole parenthesised value as one pair |
| MetadataParser.ShapeRunKeepsType | npy_parser.cpp:99-124 | the shape loop never changes num_type |
| MetadataParser.DigitsCollected | npy_parser.cpp:120-123 | digits in a shape value are collected in the buffer |
| MetadataParser.ShapeSkipsPadding | npy_parser.cpp:100-103 | spaces and `(` in a shape value have no effect |
| MetadataParser.FieldThen | npy_parser.cpp:104-119 | digits then `,` set rows, digits then `)` set cols, to their decimal value or to 1 when there are none, and the buffer is emptied |
| MetadataParser.ShapeOfPair | npy_parser.cpp:99-124 | `(r,c)` sets rows to r and cols to c |
| MetadataParser.ShapeOfSingle | npy_parser.cpp:104-119 | `(n,)` sets rows to n and cols to 1 (an empty field means 1) |
| MetadataParser.ShapeOfEmpty | npy_parser.cpp:112-119 | `()` sets cols to 1 and leaves rows unchanged |
| Scenarios.DescrEntry | npy_parser.cpp:91-96 | `'descr': '<f8',` sets num_type to 2 |
| Scenarios.FortranEntry | npy_parser.cpp:89-125 | `'fortran_order': False,` is read and ignored |
| Scenarios.ShapeEntry | npy_parser.cpp:98-124 | `'shape': (2, 3),` sets rows 2, cols 3 |
| Scenarios.ExampleDictionary | npy_parser.cpp:35-142 | a standard dictionary for a 2 x 3 `<f8` array, followed by anything, parses to (2, 2, 3) whatever the record held before |
| Scenarios.ExampleWindow | npy_parser.cpp:35-142 | a window holding the example dictionary, space padding and a newline fits the buffers and parses to (2, 2, 3) whatever the record held before |
| Scenarios.ExampleFile | npy_parser.cpp:144-175 | such a file with the magic and six payload words can be read by every populator, and populate_vector delivers six values |
| Populators.Select | npy_parser.cpp:163-167 | num_type 1 selects decode_integer and num_type 2 selects decode_double, and those are the only selections |
| Populators.Read | npy_parser.cpp:158-159 | a read delivers at most the requested count, exactly the file's bytes when the file is long enough |
| Populators.Cell | npy_parser.cpp:215-220 | element i of the table goes to a column below cols, and row * cols + column == i |
| Populators.CellUnique | npy_parser.cpp:215-220 | only element r * cols + c lands in cell (r, c) |
| Populators.TableCell | npy_parser.cpp:215-220 | cell (r, c) of a rows x cols table is filled by element r * cols + c, which lies below rows * cols, and by no other |
| Populators.CellInTable | npy_parser.cpp:217-219 | every element below rows * cols lands inside the rows x cols table |
| Populators.CellIndexBound | npy_parser.cpp:217-220 | every cell (r, c) of the table is filled from an element below rows * cols |
| Populators.PopulateVector | npy_parser.cpp:144-175 | header error or unhandled type as VectorResult says, else a fresh vector with exactly VectorResult's elements; the caller's record is the parsed one, or untouched on a header error |
| Populators.PopulateLookupTable | npy_parser.cpp:190-223 | header error or unhandled type as TableResult says, else a fresh rows x cols matrix whose cell (r, c) is TableResult's |
| Populators.PopulateLookupRow | npy_parser.cpp:225-256 | header error, index error or unhandled type as RowResult says, else a fresh row with exactly RowResult's elements |
| Populators.HeaderRejected | npy_parser.cpp:150-151 | with a bad magic every entry point fails with the header error and nothing else is read; the caller's record is left alone |
| Populators.VectorErrors | npy_parser.cpp:150-167 | populate_vector fails with the header error exactly when the magic is wrong, and with the unhandled-type error exactly when num_type is neither 1 nor 2 |
| Populators.VectorElements | npy_parser.cpp:153-173 | the vector has rows * cols elements and element i is the 8 bytes at 128 + 8i, decoded |
| Populators.TableErrorsAsVector | npy_parser.cpp:193-213 | the table fails exactly when the vector would, with the same error |
| Populators.TableIsRowMajor | npy_parser.cpp:215-220 | the table is rows x cols and cell (r, c) is element r * cols + c of the vector |
| Populators.PayloadHoldsRows | npy_parser.cpp:238-239 | a file that holds the whole table holds every row that populate_lookup_row reads |
| Populators.ReadWord | npy_parser.cpp:158-159 | a word inside a complete read is the file's word at that place |
| Populators.RowWordOffset | npy_parser.cpp:238 | word c of row irow starts where linear element irow * cols + c does |
| Populators.WindowDecodes | npy_parser.cpp:238-254 | cols words read from a word boundary of the payload decode to the matching run of payload elements |
| Populators.RowDecodes | npy_parser.cpp:238-254 | the row read at 128 + 8 * irow * cols decodes to elements irow * cols .. irow * cols + cols - 1 |
| Populators.RowMatchesTable | npy_parser.cpp:225-256 | for a row inside the table, populate_lookup_row gives exactly that row of populate_lookup_table, or the same error |
| Populators.RowIndexError | npy_parser.cpp:241-242 | the index error is raised exactly when the header is good and irow >= rows |
| Populators.Encode | npy_parser.cpp:3-23 | the encoding of a value the decoder can produce is one word that decodes back to it |
| Populators.PayloadWord | npy_parser.cpp:171-172 | word i of an encoded payload is the encoding of value i |
| Populators.FlattenWord | npy_parser.cpp:171-172 | word i of 8-byte words laid end to end sits at bytes 8i .. 8i + 7 |
| Populators.FlattenDetermined | npy_parser.cpp:171-172 | a byte string is the flattening of the words read at each 8-byte boundary |
| Populators.PayloadDecodes | npy_parser.cpp:171-172 | decoding an encoded payload gives back its values |
| Populators.VectorRoundTrip | npy_parser.cpp:144-175 | a file whose payload encodes vs, under a dictionary with rows * cols = len(vs) and the matching type, gives exactly vs |
| Populators.VectorBytesRoundTrip | npy_parser.cpp:144-175 | re-encoding the decoded vector gives back the payload bytes |
| Populators.WordsDetermine | npy_parser.cpp:171-172 | a payload is determined by its words |
| Populators.Int16 | npy_parser.cpp:215-216 | conversion to int16_t gives a value in [-32768, 32767], unchanged below 32768 |
| Populators.CellAsWritten | npy_parser.cpp:215-220 | the int16_t cell of the code as written is the intended Cell exactly when both i / cols and i % cols are below 32768 |
| Populators.CellAsWrittenFits | npy_parser.cpp:215-220 | for every table of at most 32768 rows and 32768 columns the code as written places each element correctly |
| Populators.CellAsWrittenWraps | npy_parser.cpp:215-220 | element 32768 of a 1 x 40000 table is sent to column -32768 as written, column 32768 as intended |

## Left out

- test.cpp, the Eigen types and the explicit template instantiations
  (npy_parser.cpp:176-187): the output containers are Dafny arrays of `Value`.
  The `(v_type)` conversion to the caller's element type is not modelled.
- Floating point: decode_double returns the 64-bit pattern it reinterprets
  (`Value.Float(bits)`), and decode_integer's result stays the exact integer
  (`Value.Integer`). The widening of an int64 to double, which rounds beyond
  2^53, is not modelled.
- Streams: the file is a byte sequence. Failbit and eofbit, and reads after a
  failed read, are not modelled. A short read delivers the bytes that are there.
  The populators require that the file holds the bytes they decode
  (`PayloadReadable`, `RowReadable`). C++ would decode whatever the
  uninitialised `new char[]` buffer held.
- The NUL terminator each populator writes at `numbuf[8*n+1]`
  (npy_parser.cpp:157, 203 and 237) lies one byte past the allocation of `8*n+1`
  bytes. It and `new`/`delete` are outside the model, which has no raw buffer.
- The lexer buffers are `char[100]` and `buf_pos` is a `char`. The model
  requires that no token reaches 100 characters (`TokensFit`). A longer token
  would overflow the C++ buffer. A window with fewer than 100 characters other
  than space and `'` meets the condition (`MetadataParser.ShortTextFits`), and so does
  a numpy header for a small array (`Scenarios.ExampleWindow`).
- npy_parser.hpp is not part of this model. The initial contents of the
  `Metadata metadata;` locals are unknown, so `PopulateLookupTable` and
  `PopulateLookupRow` take the initial record as a parameter `init`. The field
  types are unknown too, so `rows` and `cols` are unbounded `nat`s. The
  `uint64_t` wrap of `rows*cols` and the overflow of
  `128+8*irow*metadata.cols` in the type of `cols` are not modelled.
- `atoi` is modelled as the value of the leading decimal digits. Leading
  whitespace, signs and overflow are out of scope; the shape fields the
  parser hands it hold no spaces.
- Populators.Select: when num_type is neither 1 nor 2 npy_parser leaves the
  function pointer uninitialised. It calls the pointer as soon as there is one
  element, which is undefined behaviour. The model reports `UnhandledType` at
  the selection point, even for an empty payload, where npy_parser would
  return normally.

## Findings

| source | as written | input that shows it | evidently intended | confidence | as-written member | corrected member |
|---|---|---|---|---|---|---|
| npy_parser.cpp:215-220 | `irow` and `icol` are `int16_t`. `i / cols` and `i % cols` are narrowed to 16 bits before they index the matrix. This is right exactly while both values are below 32768, so every table of at most 32768 x 32768 is filled correctly; a wider or taller table has elements misplaced. | a 1 x 40000 table: element 32768 gets column -32768 | the column is `i % cols` and the row is `i / cols`, for any table size | medium, not executed | Populators.CellAsWritten (Populators.CellAsWrittenWraps, Populators.CellAsWrittenFits) | Populators.Cell (Populators.CellUnique, Populators.CellInTable, used by Populators.PopulateLookupTable) |
