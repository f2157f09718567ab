/** The payload populators: populate_vector, populate_lookup_table and
    populate_lookup_row. Each checks the header, parses the metadata, reads the
    payload bytes at offset 128 and decodes them 8 bytes at a time with the
    decoder that num_type selects.

    Pure functions (VectorResult, TableResult, RowResult) say what each entry
    point produces; the methods are the C++ loops, proved to fill their
    freshly sized containers with exactly that. */
module Populators {
  import opened Format
  import opened Decoders
  import opened Header
  import opened MetadataParser

  /** The double a decoder returns: the exact integer decode_integer widens,
      or the bit pattern decode_double reinterprets. */
  datatype Value = Integer(i: int) | Float(bits: nat)

  /** The value the containers are zero-initialised with (+0.0, all bits clear). */
  const ZERO: Value := Float(0)

  /** The two decoders npy_parser's function pointer can hold. */
  datatype Decoder = IntegerDecoder | DoubleDecoder

  /** Decoder selection on num_type; any other code selects nothing. */
  function Select(numType: int): (d: Option<Decoder>)
    ensures d == Some(IntegerDecoder) <==> numType == INT64
    ensures d == Some(DoubleDecoder) <==> numType == FLOAT64
  {
    if numType == INT64 then Some(IntegerDecoder)
    else if numType == FLOAT64 then Some(DoubleDecoder)
    else None
  }

  function Apply(d: Decoder, b: seq<byte>): Value
    requires |b| == ELEM_SIZE
  {
    match d
    case IntegerDecoder => Integer(DecodeInteger(b))
    case DoubleDecoder => Float(DecodeDouble(b))
  }

  /** `seekg(offset)` then `read(count)`: the bytes the stream delivers, fewer
      when the file ends early. */
  function Read(file: seq<byte>, offset: nat, count: nat): (r: seq<byte>)
    ensures |r| <= count
    ensures offset + count <= |file| ==> r == file[offset..offset + count]
  {
    if offset >= |file| then []
    else if offset + count <= |file| then file[offset..offset + count]
    else file[offset..]
  }

  /** Element i of a read buffer: bytes 8i .. 8i+8, decoded. */
  function Element(d: Decoder, buf: seq<byte>, i: nat): Value
    requires |buf| >= ELEM_SIZE * (i + 1)
  {
    Apply(d, buf[ELEM_SIZE * i..ELEM_SIZE * i + ELEM_SIZE])
  }

  /** The n elements held by a read buffer, in linear order. */
  function Decoded(d: Decoder, buf: seq<byte>, n: nat): (v: seq<Value>)
    requires |buf| >= ELEM_SIZE * n
    ensures |v| == n
  {
    seq(n, i requires 0 <= i < n => Element(d, buf, i))
  }

  /** The file offset of row irow of a table with cols columns. */
  function RowOffset(irow: nat, cols: nat): nat
  {
    PAYLOAD_OFFSET + ELEM_SIZE * irow * cols
  }

  // ---------------------------------------------------------------------
  // What the file must hold

  predicate HeaderReadable(file: seq<byte>)
  {
    |file| >= MAGIC_OFFSET + MAGIC_LENGTH
  }

  /** The dictionary window is there and its tokens fit npy_parser's buffers. */
  predicate MetadataReadable(file: seq<byte>)
  {
    |file| >= PAYLOAD_OFFSET && TokensFit(Window(file))
  }

  /** The metadata the populators work from. */
  function ReadMetadata(file: seq<byte>, md0: Metadata): Metadata
    requires MetadataReadable(file)
  {
    ParseMetadata(Window(file), md0)
  }

  /** The file holds the rows * cols payload words md describes. */
  predicate HoldsPayload(file: seq<byte>, md: Metadata)
  {
    |file| >= PAYLOAD_OFFSET + ELEM_SIZE * ElemCount(md)
  }

  /** The file holds row irow of the table md describes, if there is one. */
  predicate HoldsRow(file: seq<byte>, md: Metadata, irow: nat)
  {
    irow < md.rows ==> |file| >= RowOffset(irow, md.cols) + ELEM_SIZE * md.cols
  }

  /** The file holds everything populate_vector and populate_lookup_table read. */
  predicate PayloadReadable(file: seq<byte>, md0: Metadata)
  {
    && HeaderReadable(file)
    && (CheckHeader(file) ==> MetadataReadable(file) && HoldsPayload(file, ReadMetadata(file, md0)))
  }

  /** The file holds everything populate_lookup_row uses for row irow. */
  predicate RowReadable(file: seq<byte>, md0: Metadata, irow: nat)
  {
    && HeaderReadable(file)
    && (CheckHeader(file) ==> MetadataReadable(file) && HoldsRow(file, ReadMetadata(file, md0), irow))
  }

  // ---------------------------------------------------------------------
  // What the entry points produce

  /** The record the caller of populate_vector holds afterwards: untouched when
      the header is rejected, parsed otherwise. */
  function MetadataAfter(file: seq<byte>, md0: Metadata): Metadata
    requires PayloadReadable(file, md0)
  {
    if CheckHeader(file) then ReadMetadata(file, md0) else md0
  }

  /** populate_vector after the header check, on the parsed record md. */
  function VectorOf(file: seq<byte>, md: Metadata): Result<seq<Value>>
    requires HoldsPayload(file, md)
  {
    var n := ElemCount(md);
    var numbuf := Read(file, PAYLOAD_OFFSET, ELEM_SIZE * n);
    match Select(md.numType)
    case None => Err(UnhandledType)
    case Some(d) => Ok(Decoded(d, numbuf, n))
  }

  /** populate_lookup_table after the header check, on the parsed record md. */
  function TableOf(file: seq<byte>, md: Metadata): Result<seq<seq<Value>>>
    requires HoldsPayload(file, md)
  {
    var numbuf := Read(file, PAYLOAD_OFFSET, ELEM_SIZE * ElemCount(md));
    match Select(md.numType)
    case None => Err(UnhandledType)
    case Some(d) =>
      Ok(seq(md.rows, r requires 0 <= r < md.rows =>
        seq(md.cols, c requires 0 <= c < md.cols =>
          CellIndexBound(r, c, md.rows, md.cols);
          Element(d, numbuf, r * md.cols + c))))
  }

  /** populate_lookup_row after the header check, on the parsed record md:
      the row is read before its index is checked. */
  function RowOf(file: seq<byte>, md: Metadata, irow: nat): Result<seq<Value>>
    requires HoldsRow(file, md, irow)
  {
    var numbuf := Read(file, RowOffset(irow, md.cols), ELEM_SIZE * md.cols);
    if irow >= md.rows then Err(IndexError)
    else
      match Select(md.numType)
      case None => Err(UnhandledType)
      case Some(d) => Ok(Decoded(d, numbuf, md.cols))
  }

  function VectorResult(file: seq<byte>, md0: Metadata): Result<seq<Value>>
    requires PayloadReadable(file, md0)
  {
    if !CheckHeader(file) then Err(HeaderError) else VectorOf(file, ReadMetadata(file, md0))
  }

  function TableResult(file: seq<byte>, init: Metadata): Result<seq<seq<Value>>>
    requires PayloadReadable(file, init)
  {
    if !CheckHeader(file) then Err(HeaderError) else TableOf(file, ReadMetadata(file, init))
  }

  function RowResult(file: seq<byte>, init: Metadata, irow: uint16): Result<seq<Value>>
    requires RowReadable(file, init, irow)
  {
    if !CheckHeader(file) then Err(HeaderError) else RowOf(file, ReadMetadata(file, init), irow)
  }

  // ---------------------------------------------------------------------
  // Index arithmetic

  lemma MulMonotone(a: nat, b: nat, c: nat)
    requires a <= b
    ensures a * c <= b * c
  {
  }

  /** Cell (r, c) of a rows x cols table is linear element r*cols + c, inside
      the payload. */
  lemma CellIndexBound(r: nat, c: nat, rows: nat, cols: nat)
    requires r < rows && c < cols
    ensures r * cols + c < rows * cols
  {
    MulMonotone(r + 1, rows, cols);
  }

  /** Where the table stores element i: row i / cols, column i % cols. */
  function Cell(i: nat, cols: nat): (rc: (nat, nat))
    requires cols > 0
    ensures rc.1 < cols && rc.0 * cols + rc.1 == i
  {
    (i / cols, i % cols)
  }

  /** Row-major placement is one-to-one: only element r*cols + c lands in (r, c). */
  lemma CellUnique(i: nat, cols: nat, r: nat, c: nat)
    requires c < cols && r * cols + c == i
    ensures Cell(i, cols) == (r, c)
  {
    var (q, m) := Cell(i, cols);
    if q < r {
      MulMonotone(q + 1, r, cols);
    } else if r < q {
      MulMonotone(r + 1, q, cols);
    }
  }

  /** Cell (r, c) is filled by element k = r*cols + c and by no other. */
  lemma TableCell(r: nat, c: nat, rows: nat, cols: nat) returns (k: nat)
    requires r < rows && c < cols
    ensures k == r * cols + c && k < rows * cols && Cell(k, cols) == (r, c)
  {
    k := r * cols + c;
    CellIndexBound(r, c, rows, cols);
    CellUnique(k, cols, r, c);
  }

  lemma CellInTable(i: nat, rows: nat, cols: nat)
    requires i < rows * cols
    ensures cols > 0 && Cell(i, cols).0 < rows
  {
    if Cell(i, cols).0 >= rows {
      MulMonotone(rows, Cell(i, cols).0, cols);
    }
  }

  // ---------------------------------------------------------------------
  // The C++ loops

  method PopulateVector(file: seq<byte>, md0: Metadata) returns (md: Metadata, res: Result<array<Value>>)
    requires PayloadReadable(file, md0)
    ensures md == MetadataAfter(file, md0)
    ensures VectorResult(file, md0).Err? ==> res == Err(VectorResult(file, md0).error)
    ensures VectorResult(file, md0).Ok? ==>
      res.Ok? && fresh(res.value) && res.value[..] == VectorResult(file, md0).value
  {
    if !CheckHeader(file) {
      return md0, Err(HeaderError);
    }
    md := PopulateMetadata(file, md0);
    var elemCount := md.rows * md.cols;
    var numbuf := Read(file, PAYLOAD_OFFSET, ELEM_SIZE * elemCount);
    var targetvec := new Value[elemCount](_ => ZERO);
    var decoder := Select(md.numType);
    if decoder.None? {
      return md, Err(UnhandledType);
    }
    var d := decoder.value;
    for i := 0 to elemCount
      invariant forall k :: 0 <= k < i ==> targetvec[k] == Element(d, numbuf, k)
    {
      targetvec[i] := Apply(d, numbuf[ELEM_SIZE * i..ELEM_SIZE * i + ELEM_SIZE]);
    }
    return md, Ok(targetvec);
  }

  method PopulateLookupTable(file: seq<byte>, init: Metadata) returns (res: Result<array2<Value>>)
    requires PayloadReadable(file, init)
    ensures TableResult(file, init).Err? ==> res == Err(TableResult(file, init).error)
    ensures TableResult(file, init).Ok? ==>
      && res.Ok? && fresh(res.value)
      && res.value.Length0 == ReadMetadata(file, init).rows
      && res.value.Length1 == ReadMetadata(file, init).cols
      && forall r, c :: 0 <= r < res.value.Length0 && 0 <= c < res.value.Length1 ==>
           res.value[r, c] == TableResult(file, init).value[r][c]
  {
    if !CheckHeader(file) {
      return Err(HeaderError);
    }
    var metadata := PopulateMetadata(file, init);
    var elemCount := metadata.rows * metadata.cols;
    var numbuf := Read(file, PAYLOAD_OFFSET, ELEM_SIZE * elemCount);
    var lut := new Value[metadata.rows, metadata.cols]((_, _) => ZERO);
    var decoder := Select(metadata.numType);
    if decoder.None? {
      return Err(UnhandledType);
    }
    var d := decoder.value;
    var cols := metadata.cols;
    for i := 0 to elemCount
      invariant forall k :: 0 <= k < i ==>
        cols > 0 && Cell(k, cols).0 < metadata.rows &&
        lut[Cell(k, cols).0, Cell(k, cols).1] == Element(d, numbuf, k)
    {
      CellInTable(i, metadata.rows, cols);
      var (irow, icol) := Cell(i, cols);
      lut[irow, icol] := Apply(d, numbuf[ELEM_SIZE * i..ELEM_SIZE * i + ELEM_SIZE]);
    }
    ghost var table := TableOf(file, metadata).value;
    forall r, c | 0 <= r < metadata.rows && 0 <= c < cols
      ensures lut[r, c] == table[r][c]
    {
      var k := TableCell(r, c, metadata.rows, cols);
      assert table[r][c] == Element(d, numbuf, k);
    }
    return Ok(lut);
  }

  method PopulateLookupRow(file: seq<byte>, init: Metadata, irow: uint16) returns (res: Result<array<Value>>)
    requires RowReadable(file, init, irow)
    ensures RowResult(file, init, irow).Err? ==> res == Err(RowResult(file, init, irow).error)
    ensures RowResult(file, init, irow).Ok? ==>
      res.Ok? && fresh(res.value) && res.value[..] == RowResult(file, init, irow).value
  {
    if !CheckHeader(file) {
      return Err(HeaderError);
    }
    var metadata := PopulateMetadata(file, init);
    var numbuf := Read(file, RowOffset(irow, metadata.cols), ELEM_SIZE * metadata.cols);
    if irow >= metadata.rows {
      return Err(IndexError);
    }
    var row := new Value[metadata.cols](_ => ZERO);
    var decoder := Select(metadata.numType);
    if decoder.None? {
      return Err(UnhandledType);
    }
    var d := decoder.value;
    for i := 0 to metadata.cols
      invariant forall k :: 0 <= k < i ==> row[k] == Element(d, numbuf, k)
    {
      row[i] := Apply(d, numbuf[ELEM_SIZE * i..ELEM_SIZE * i + ELEM_SIZE]);
    }
    return Ok(row);
  }

  // ---------------------------------------------------------------------
  // Properties of the entry points

  /** A file with the wrong magic is refused by every entry point before
      anything else is read, and the caller's record is left as it was. */
  lemma HeaderRejected(file: seq<byte>, md0: Metadata, irow: uint16)
    requires HeaderReadable(file) && !CheckHeader(file)
    ensures PayloadReadable(file, md0) && RowReadable(file, md0, irow)
    ensures VectorResult(file, md0) == Err(HeaderError) && MetadataAfter(file, md0) == md0
    ensures TableResult(file, md0) == Err(HeaderError)
    ensures RowResult(file, md0, irow) == Err(HeaderError)
  {
  }

  /** populate_vector fails exactly when the magic is wrong or num_type names
      no decoder, and tells the two apart. */
  lemma VectorErrors(file: seq<byte>, md0: Metadata)
    requires PayloadReadable(file, md0)
    ensures VectorResult(file, md0) == Err(HeaderError) <==> !CheckHeader(file)
    ensures VectorResult(file, md0) == Err(UnhandledType) <==>
      CheckHeader(file) && ReadMetadata(file, md0).numType != INT64
                        && ReadMetadata(file, md0).numType != FLOAT64
    ensures VectorResult(file, md0).Err? ==>
      VectorResult(file, md0).error in {HeaderError, UnhandledType}
  {
  }

  lemma VectorOfElements(file: seq<byte>, md: Metadata, i: nat)
    requires HoldsPayload(file, md) && Select(md.numType).Some? && i < ElemCount(md)
    ensures VectorOf(file, md).Ok? && |VectorOf(file, md).value| == ElemCount(md)
    ensures VectorOf(file, md).value[i] ==
      Apply(Select(md.numType).value,
            file[PAYLOAD_OFFSET + ELEM_SIZE * i..PAYLOAD_OFFSET + ELEM_SIZE * i + ELEM_SIZE])
  {
    ReadWord(file, PAYLOAD_OFFSET, ELEM_SIZE * ElemCount(md), ELEM_SIZE * i);
  }

  /** Element i of the vector is the 8 bytes at 128 + 8i, decoded with the
      decoder num_type selects; the vector has rows * cols elements. */
  lemma VectorElements(file: seq<byte>, md0: Metadata, i: nat)
    requires PayloadReadable(file, md0) && CheckHeader(file)
    requires Select(ReadMetadata(file, md0).numType).Some?
    requires i < ElemCount(ReadMetadata(file, md0))
    ensures VectorResult(file, md0).Ok?
    ensures |VectorResult(file, md0).value| == ElemCount(ReadMetadata(file, md0))
    ensures VectorResult(file, md0).value[i] ==
      Apply(Select(ReadMetadata(file, md0).numType).value,
            file[PAYLOAD_OFFSET + ELEM_SIZE * i..PAYLOAD_OFFSET + ELEM_SIZE * i + ELEM_SIZE])
  {
    VectorOfElements(file, ReadMetadata(file, md0), i);
  }

  /** The table and the vector fail alike. */
  lemma TableErrorsAsVector(file: seq<byte>, init: Metadata)
    requires PayloadReadable(file, init)
    ensures TableResult(file, init).Err? <==> VectorResult(file, init).Err?
    ensures TableResult(file, init).Err? ==>
      TableResult(file, init).error == VectorResult(file, init).error
  {
  }

  lemma TableOfRowMajor(file: seq<byte>, md: Metadata, r: nat, c: nat)
    requires HoldsPayload(file, md) && Select(md.numType).Some?
    requires r < md.rows && c < md.cols
    ensures TableOf(file, md).Ok? && VectorOf(file, md).Ok?
    ensures |TableOf(file, md).value| == md.rows && |TableOf(file, md).value[r]| == md.cols
    ensures r * md.cols + c < |VectorOf(file, md).value|
    ensures TableOf(file, md).value[r][c] == VectorOf(file, md).value[r * md.cols + c]
  {
    CellIndexBound(r, c, md.rows, md.cols);
  }

  /** The table is the vector laid out row-major: cell (r, c) holds linear
      element r * cols + c, and the table is rows x cols. */
  lemma TableIsRowMajor(file: seq<byte>, init: Metadata, r: nat, c: nat)
    requires PayloadReadable(file, init) && CheckHeader(file)
    requires Select(ReadMetadata(file, init).numType).Some?
    requires r < ReadMetadata(file, init).rows && c < ReadMetadata(file, init).cols
    ensures TableResult(file, init).Ok? && VectorResult(file, init).Ok?
    ensures |TableResult(file, init).value| == ReadMetadata(file, init).rows
    ensures |TableResult(file, init).value[r]| == ReadMetadata(file, init).cols
    ensures r * ReadMetadata(file, init).cols + c < |VectorResult(file, init).value|
    ensures TableResult(file, init).value[r][c] ==
      VectorResult(file, init).value[r * ReadMetadata(file, init).cols + c]
  {
    TableOfRowMajor(file, ReadMetadata(file, init), r, c);
  }

  lemma HoldsEveryRow(file: seq<byte>, md: Metadata, irow: nat)
    requires HoldsPayload(file, md)
    ensures HoldsRow(file, md, irow)
  {
    if irow < md.rows {
      MulMonotone(irow + 1, md.rows, md.cols);
      RowWordOffset(irow, md.cols, md.cols);
      assert irow * md.cols + md.cols == (irow + 1) * md.cols;
    }
  }

  /** A file that holds the whole table holds each of its rows. */
  lemma PayloadHoldsRows(file: seq<byte>, init: Metadata, irow: nat)
    requires PayloadReadable(file, init)
    ensures RowReadable(file, init, irow)
  {
    if CheckHeader(file) {
      HoldsEveryRow(file, ReadMetadata(file, init), irow);
    }
  }

  /** A word inside a complete read is the file's word at the same place. */
  lemma ReadWord(file: seq<byte>, start: nat, count: nat, j: nat)
    requires start + count <= |file| && j + ELEM_SIZE <= count
    ensures Read(file, start, count)[j..j + ELEM_SIZE] == file[start + j..start + j + ELEM_SIZE]
  {
    var r := Read(file, start, count);
    assert r == file[start..start + count];
    var word, there := r[j..j + ELEM_SIZE], file[start + j..start + j + ELEM_SIZE];
    forall k | 0 <= k < ELEM_SIZE
      ensures word[k] == there[k]
    {
      assert word[k] == r[j + k] == file[start + j + k];
    }
  }

  /** Word c of row irow starts where linear element irow * cols + c does. */
  lemma RowWordOffset(irow: nat, cols: nat, c: nat)
    ensures RowOffset(irow, cols) + ELEM_SIZE * c == PAYLOAD_OFFSET + ELEM_SIZE * (irow * cols + c)
  {
    var m := irow * cols;
    assert ELEM_SIZE * irow * cols == ELEM_SIZE * m;
  }

  /** The cols elements of a read buffer from element base on. */
  function Elements(d: Decoder, numbuf: seq<byte>, base: nat, cols: nat): (v: seq<Value>)
    requires |numbuf| >= ELEM_SIZE * (base + cols)
    ensures |v| == cols
  {
    seq(cols, c requires 0 <= c < cols => Element(d, numbuf, base + c))
  }

  /** cols words read at the word boundary base of the payload are payload
      elements base .. base + cols - 1. */
  lemma WindowDecodes(file: seq<byte>, d: Decoder, n: nat, base: nat, cols: nat)
    requires base + cols <= n && |file| >= PAYLOAD_OFFSET + ELEM_SIZE * n
    ensures Decoded(d, Read(file, PAYLOAD_OFFSET + ELEM_SIZE * base, ELEM_SIZE * cols), cols)
         == Elements(d, Read(file, PAYLOAD_OFFSET, ELEM_SIZE * n), base, cols)
  {
    var rowbuf := Read(file, PAYLOAD_OFFSET + ELEM_SIZE * base, ELEM_SIZE * cols);
    var numbuf := Read(file, PAYLOAD_OFFSET, ELEM_SIZE * n);
    forall c | 0 <= c < cols
      ensures Decoded(d, rowbuf, cols)[c] == Elements(d, numbuf, base, cols)[c]
    {
      ReadWord(file, PAYLOAD_OFFSET + ELEM_SIZE * base, ELEM_SIZE * cols, ELEM_SIZE * c);
      ReadWord(file, PAYLOAD_OFFSET, ELEM_SIZE * n, ELEM_SIZE * (base + c));
      assert Decoded(d, rowbuf, cols)[c] == Apply(d, rowbuf[ELEM_SIZE * c..ELEM_SIZE * c + ELEM_SIZE]);
      assert Elements(d, numbuf, base, cols)[c] == Element(d, numbuf, base + c);
      assert Element(d, numbuf, base + c)
          == Apply(d, numbuf[ELEM_SIZE * (base + c)..ELEM_SIZE * (base + c) + ELEM_SIZE]);
    }
  }

  /** The row populate_lookup_row reads decodes to elements irow * cols ..
      of the payload. */
  lemma RowDecodes(file: seq<byte>, d: Decoder, rows: nat, cols: nat, irow: nat)
    requires irow < rows && |file| >= PAYLOAD_OFFSET + ELEM_SIZE * (rows * cols)
    ensures irow * cols + cols <= rows * cols
    ensures Decoded(d, Read(file, RowOffset(irow, cols), ELEM_SIZE * cols), cols)
         == Elements(d, Read(file, PAYLOAD_OFFSET, ELEM_SIZE * (rows * cols)), irow * cols, cols)
  {
    RowFits(irow, rows, cols);
    RowStart(irow, cols);
    WindowDecodes(file, d, rows * cols, irow * cols, cols);
  }

  /** Row irow of a rows x cols table ends inside it. */
  lemma RowFits(irow: nat, rows: nat, cols: nat)
    requires irow < rows
    ensures irow * cols + cols <= rows * cols
  {
    MulMonotone(irow + 1, rows, cols);
    assert (irow + 1) * cols == irow * cols + cols;
  }

  /** Row irow starts at linear element irow * cols. */
  lemma RowStart(irow: nat, cols: nat)
    ensures RowOffset(irow, cols) == PAYLOAD_OFFSET + ELEM_SIZE * (irow * cols)
  {
    RowWordOffset(irow, cols, 0);
  }

  lemma RowOfMatchesTable(file: seq<byte>, md: Metadata, irow: nat)
    requires HoldsPayload(file, md) && irow < md.rows
    ensures HoldsRow(file, md, irow)
    ensures TableOf(file, md).Err? ==> RowOf(file, md, irow) == Err(TableOf(file, md).error)
    ensures TableOf(file, md).Ok? ==> RowOf(file, md, irow) == Ok(TableOf(file, md).value[irow])
  {
    HoldsEveryRow(file, md, irow);
    if Select(md.numType).Some? {
      var d := Select(md.numType).value;
      var numbuf := Read(file, PAYLOAD_OFFSET, ELEM_SIZE * ElemCount(md));
      RowDecodes(file, d, md.rows, md.cols, irow);
      assert TableOf(file, md).value[irow] == Elements(d, numbuf, irow * md.cols, md.cols);
    }
  }

  /** populate_lookup_row delivers, for a row inside the table, exactly that
      row of populate_lookup_table, and fails where the table fails. */
  lemma RowMatchesTable(file: seq<byte>, init: Metadata, irow: uint16)
    requires PayloadReadable(file, init) && CheckHeader(file)
    requires irow < ReadMetadata(file, init).rows
    ensures RowReadable(file, init, irow)
    ensures TableResult(file, init).Err? ==> RowResult(file, init, irow) == Err(TableResult(file, init).error)
    ensures TableResult(file, init).Ok? ==> RowResult(file, init, irow) == Ok(TableResult(file, init).value[irow])
  {
    RowOfMatchesTable(file, ReadMetadata(file, init), irow as nat);
  }

  /** populate_lookup_row raises its index error exactly when the header is
      good and the row is past the last one. */
  lemma RowIndexError(file: seq<byte>, init: Metadata, irow: uint16)
    requires RowReadable(file, init, irow)
    ensures RowResult(file, init, irow) == Err(IndexError) <==>
      CheckHeader(file) && irow >= ReadMetadata(file, init).rows
  {
  }

  // ---------------------------------------------------------------------
  // Writing a payload and reading it back

  /** The values decoder d can deliver. */
  predicate Decodable(d: Decoder, v: Value)
  {
    match d
    case IntegerDecoder => v.Integer? && -(TWO_63 as int) <= v.i < TWO_63
    case DoubleDecoder => v.Float? && v.bits < TWO_64
  }

  /** The little-endian word that decodes to v. */
  function Encode(d: Decoder, v: Value): (b: seq<byte>)
    requires Decodable(d, v)
    ensures |b| == ELEM_SIZE && Apply(d, b) == v
  {
    match d
    case IntegerDecoder => IntegerRoundTrip(v.i); EncodeInteger(v.i)
    case DoubleDecoder => DoubleRoundTrip(v.bits); EncodeDouble(v.bits)
  }

  /** 8-byte words laid end to end. */
  function Flatten(ws: seq<seq<byte>>): (p: seq<byte>)
    requires forall k :: 0 <= k < |ws| ==> |ws[k]| == ELEM_SIZE
    ensures |p| == ELEM_SIZE * |ws|
  {
    if ws == [] then [] else Flatten(ws[..|ws| - 1]) + ws[|ws| - 1]
  }

  /** Word i of a flattened sequence is word i. */
  lemma {:induction false} FlattenWord(ws: seq<seq<byte>>, i: nat)
    requires forall k :: 0 <= k < |ws| ==> |ws[k]| == ELEM_SIZE
    requires i < |ws|
    ensures Flatten(ws)[ELEM_SIZE * i..ELEM_SIZE * i + ELEM_SIZE] == ws[i]
  {
    var front := ws[..|ws| - 1];
    var p, e := Flatten(front), ws[|ws| - 1];
    assert Flatten(ws) == p + e;
    if i < |ws| - 1 {
      FlattenWord(front, i);
      assert front[i] == ws[i];
      SliceInFront(p, e, ELEM_SIZE * i, ELEM_SIZE * i + ELEM_SIZE);
    } else {
      SliceAtBack(p, e);
    }
  }

  lemma SliceInFront(p: seq<byte>, e: seq<byte>, a: nat, b: nat)
    requires a <= b <= |p|
    ensures (p + e)[a..b] == p[a..b]
  {
    var l, r := (p + e)[a..b], p[a..b];
    forall k | 0 <= k < b - a
      ensures l[k] == r[k]
    {
      assert l[k] == (p + e)[a + k];
    }
  }

  lemma SliceAtBack(p: seq<byte>, e: seq<byte>)
    ensures (p + e)[|p|..|p| + |e|] == e
  {
    var l := (p + e)[|p|..|p| + |e|];
    forall k | 0 <= k < |e|
      ensures l[k] == e[k]
    {
      assert l[k] == (p + e)[|p| + k];
    }
  }

  /** A byte string of 8|ws| bytes whose words are ws is their flattening. */
  lemma FlattenDetermined(ws: seq<seq<byte>>, bytes: seq<byte>)
    requires forall k :: 0 <= k < |ws| ==> |ws[k]| == ELEM_SIZE
    requires |bytes| == ELEM_SIZE * |ws|
    requires forall k :: 0 <= k < |ws| ==> ws[k] == bytes[ELEM_SIZE * k..ELEM_SIZE * k + ELEM_SIZE]
    ensures Flatten(ws) == bytes
  {
    var p := Flatten(ws);
    forall j | 0 <= j < |bytes|
      ensures p[j] == bytes[j]
    {
      var k := j / ELEM_SIZE;
      FlattenWord(ws, k);
      assert p[j] == p[ELEM_SIZE * k..ELEM_SIZE * k + ELEM_SIZE][j - ELEM_SIZE * k];
      assert bytes[j] == bytes[ELEM_SIZE * k..ELEM_SIZE * k + ELEM_SIZE][j - ELEM_SIZE * k];
    }
  }

  /** The words that encode vs. */
  function Words(d: Decoder, vs: seq<Value>): (ws: seq<seq<byte>>)
    requires forall k :: 0 <= k < |vs| ==> Decodable(d, vs[k])
    ensures |ws| == |vs| && forall k :: 0 <= k < |ws| ==> |ws[k]| == ELEM_SIZE
  {
    seq(|vs|, k requires 0 <= k < |vs| => Encode(d, vs[k]))
  }

  /** A payload: the values' words one after another. */
  function Payload(d: Decoder, vs: seq<Value>): (p: seq<byte>)
    requires forall k :: 0 <= k < |vs| ==> Decodable(d, vs[k])
    ensures |p| == ELEM_SIZE * |vs|
  {
    Flatten(Words(d, vs))
  }

  /** Word i of a payload is the encoding of value i. */
  lemma PayloadWord(d: Decoder, vs: seq<Value>, i: nat)
    requires forall k :: 0 <= k < |vs| ==> Decodable(d, vs[k])
    requires i < |vs|
    ensures Payload(d, vs)[ELEM_SIZE * i..ELEM_SIZE * i + ELEM_SIZE] == Encode(d, vs[i])
  {
    FlattenWord(Words(d, vs), i);
  }

  lemma VectorOfRoundTrip(file: seq<byte>, md: Metadata, d: Decoder, vs: seq<Value>)
    requires Select(md.numType) == Some(d) && ElemCount(md) == |vs|
    requires forall k :: 0 <= k < |vs| ==> Decodable(d, vs[k])
    requires |file| >= PAYLOAD_OFFSET + ELEM_SIZE * |vs|
    requires file[PAYLOAD_OFFSET..PAYLOAD_OFFSET + ELEM_SIZE * |vs|] == Payload(d, vs)
    ensures HoldsPayload(file, md) && VectorOf(file, md) == Ok(vs)
  {
    assert Read(file, PAYLOAD_OFFSET, ELEM_SIZE * |vs|) == Payload(d, vs);
    PayloadDecodes(d, vs);
  }

  /** A file whose payload holds the encodings of vs, under a dictionary that
      gives rows * cols == |vs| and the matching num_type, decodes back to vs. */
  lemma VectorRoundTrip(file: seq<byte>, md0: Metadata, d: Decoder, vs: seq<Value>)
    requires HeaderReadable(file) && CheckHeader(file) && MetadataReadable(file)
    requires Select(ReadMetadata(file, md0).numType) == Some(d)
    requires ElemCount(ReadMetadata(file, md0)) == |vs|
    requires forall k :: 0 <= k < |vs| ==> Decodable(d, vs[k])
    requires |file| >= PAYLOAD_OFFSET + ELEM_SIZE * |vs|
    requires file[PAYLOAD_OFFSET..PAYLOAD_OFFSET + ELEM_SIZE * |vs|] == Payload(d, vs)
    ensures PayloadReadable(file, md0)
    ensures VectorResult(file, md0) == Ok(vs)
  {
    VectorOfRoundTrip(file, ReadMetadata(file, md0), d, vs);
  }

  /** Decoding a payload gives back its values. */
  lemma PayloadDecodes(d: Decoder, vs: seq<Value>)
    requires forall k :: 0 <= k < |vs| ==> Decodable(d, vs[k])
    ensures Decoded(d, Payload(d, vs), |vs|) == vs
  {
    var got := Decoded(d, Payload(d, vs), |vs|);
    forall i | 0 <= i < |vs|
      ensures got[i] == vs[i]
    {
      PayloadWord(d, vs, i);
    }
  }

  lemma VectorOfBytes(file: seq<byte>, md: Metadata)
    requires HoldsPayload(file, md) && VectorOf(file, md).Ok?
    ensures forall k :: 0 <= k < |VectorOf(file, md).value| ==>
      Decodable(Select(md.numType).value, VectorOf(file, md).value[k])
    ensures Payload(Select(md.numType).value, VectorOf(file, md).value)
         == file[PAYLOAD_OFFSET..PAYLOAD_OFFSET + ELEM_SIZE * ElemCount(md)]
  {
    var d := Select(md.numType).value;
    var vs := VectorOf(file, md).value;
    var n := ElemCount(md);
    var bytes := file[PAYLOAD_OFFSET..PAYLOAD_OFFSET + ELEM_SIZE * n];
    forall k | 0 <= k < n
      ensures Decodable(d, vs[k]) && Encode(d, vs[k]) == bytes[ELEM_SIZE * k..ELEM_SIZE * k + ELEM_SIZE]
    {
      WordReencodes(file, md, k);
    }
    WordsDetermine(d, vs, bytes);
  }

  /** Element k of the vector re-encodes to its payload word. */
  lemma WordReencodes(file: seq<byte>, md: Metadata, k: nat)
    requires HoldsPayload(file, md) && VectorOf(file, md).Ok? && k < ElemCount(md)
    ensures |VectorOf(file, md).value| == ElemCount(md)
    ensures Decodable(Select(md.numType).value, VectorOf(file, md).value[k])
    ensures Encode(Select(md.numType).value, VectorOf(file, md).value[k])
         == file[PAYLOAD_OFFSET..PAYLOAD_OFFSET + ELEM_SIZE * ElemCount(md)][ELEM_SIZE * k..ELEM_SIZE * k + ELEM_SIZE]
  {
    var d := Select(md.numType).value;
    var n := ElemCount(md);
    var w := Read(file, PAYLOAD_OFFSET, ELEM_SIZE * n)[ELEM_SIZE * k..ELEM_SIZE * k + ELEM_SIZE];
    assert w == file[PAYLOAD_OFFSET..PAYLOAD_OFFSET + ELEM_SIZE * n][ELEM_SIZE * k..ELEM_SIZE * k + ELEM_SIZE];
    assert VectorOf(file, md).value[k] == Apply(d, w);
    match d
    case IntegerDecoder => IntegerBytesRoundTrip(w);
    case DoubleDecoder => DoubleBytesRoundTrip(w);
  }

  /** The other direction: re-encoding the decoded vector gives back the
      payload bytes. */
  lemma VectorBytesRoundTrip(file: seq<byte>, md0: Metadata)
    requires PayloadReadable(file, md0) && VectorResult(file, md0).Ok?
    ensures forall k :: 0 <= k < |VectorResult(file, md0).value| ==>
      Decodable(Select(ReadMetadata(file, md0).numType).value, VectorResult(file, md0).value[k])
    ensures Payload(Select(ReadMetadata(file, md0).numType).value, VectorResult(file, md0).value)
         == file[PAYLOAD_OFFSET..PAYLOAD_OFFSET + ELEM_SIZE * ElemCount(ReadMetadata(file, md0))]
  {
    VectorOfBytes(file, ReadMetadata(file, md0));
  }

  /** Two byte strings of 8|vs| bytes whose words all agree are equal. */
  lemma WordsDetermine(d: Decoder, vs: seq<Value>, bytes: seq<byte>)
    requires forall k :: 0 <= k < |vs| ==> Decodable(d, vs[k])
    requires |bytes| == ELEM_SIZE * |vs|
    requires forall k :: 0 <= k < |vs| ==>
      Encode(d, vs[k]) == bytes[ELEM_SIZE * k..ELEM_SIZE * k + ELEM_SIZE]
    ensures Payload(d, vs) == bytes
  {
    var ws := Words(d, vs);
    forall k | 0 <= k < |ws|
      ensures ws[k] == bytes[ELEM_SIZE * k..ELEM_SIZE * k + ELEM_SIZE]
    {
    }
    FlattenDetermined(ws, bytes);
  }

  // ---------------------------------------------------------------------
  // The int16_t row and column indices of populate_lookup_table

  /** Conversion of a non-negative count to int16_t: modulo 2^16, then the
      upper half read as negative. */
  function Int16(x: nat): (v: int)
    ensures -0x8000 <= v < 0x8000
    ensures x < 0x8000 ==> v == x
  {
    var m := x % 0x1_0000;
    if m < 0x8000 then m else m - 0x1_0000
  }

  /** The cell the loop as written addresses: quotient and remainder stored
      in int16_t variables before indexing the matrix. */
  function CellAsWritten(i: nat, cols: nat): (rc: (int, int))
    requires cols > 0
    ensures rc == Cell(i, cols) <==> i / cols < 0x8000 && i % cols < 0x8000
  {
    (Int16(i / cols), Int16(i % cols))
  }

  /** The code as written is right for every table of at most 32768 rows and
      32768 columns. */
  lemma CellAsWrittenFits(i: nat, rows: nat, cols: nat)
    requires rows <= 0x8000 && cols <= 0x8000 && i < rows * cols
    ensures cols > 0 && CellAsWritten(i, cols) == Cell(i, cols)
  {
    CellInTable(i, rows, cols);
  }

  /** Element 32768 of a 1 x 40000 table is sent to column -32768. */
  lemma CellAsWrittenWraps()
    ensures Cell(32768, 40000) == (0, 32768)
    ensures CellAsWritten(32768, 40000) == (0, -32768)
  {
  }
}
