/** The fixed version-1.0 `.npy` layout read by the parser, the metadata record
    it fills in, and the errors its entry points raise. */
module Format {

  /** One byte of the file. */
  type byte = x: int | 0 <= x < 0x100

  /** The C++ `uint16_t` of the row index passed to populate_lookup_row. */
  type uint16 = x: int | 0 <= x < 0x1_0000

  /** Offset and length of the "NUMPY" magic string. */
  const MAGIC_OFFSET: nat := 1
  const MAGIC_LENGTH: nat := 5
  /** Offset and length of the ASCII header dictionary. */
  const DICT_OFFSET: nat := 10
  const DICT_LENGTH: nat := 118
  /** Offset of the first payload element; every element takes 8 bytes. */
  const PAYLOAD_OFFSET: nat := 128
  const ELEM_SIZE: nat := 8
  /** Size of the parser's token buffers `buf`, `last_key` and `last_val`. */
  const BUF_SIZE: nat := 100

  /** Type codes stored in `num_type`. */
  const INT64: int := 1
  const FLOAT64: int := 2

  /** The Metadata record: element-type code and two-dimensional shape. */
  datatype Metadata = Metadata(numType: int, rows: nat, cols: nat)

  /** Number of elements the metadata declares (`elem_count`). */
  function ElemCount(md: Metadata): nat
  {
    md.rows * md.cols
  }

  /** NPYPARSER_HEADER_ERROR, NPYPARSER_INDEX_ERROR, and the error the model
      raises where npy_parser would call an unselected decoder. */
  datatype Error = HeaderError | IndexError | UnhandledType

  datatype Result<T> = Ok(value: T) | Err(error: Error)

  datatype Option<T> = None | Some(value: T)
}
