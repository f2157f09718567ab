/** check_header: the five bytes at offset 1, read into a NUL-terminated
    buffer and compared with "NUMPY" by `strcmp`. */
module Header {
  import opened Format
  import opened CText

  /** The bytes of "NUMPY". */
  const MAGIC: seq<byte> := [0x4E, 0x55, 0x4D, 0x50, 0x59]

  function MagicField(file: seq<byte>): seq<byte>
    requires |file| >= MAGIC_OFFSET + MAGIC_LENGTH
  {
    file[MAGIC_OFFSET..MAGIC_OFFSET + MAGIC_LENGTH]
  }

  /** True iff bytes 1..5 of the file spell "NUMPY"; no other byte is read. */
  function CheckHeader(file: seq<byte>): (ok: bool)
    requires |file| >= MAGIC_OFFSET + MAGIC_LENGTH
    ensures ok <==> file[1..6] == MAGIC
  {
    var header := Chars(MagicField(file));
    var ok := CStr(header) == "NUMPY";
    assert ok ==> header == "NUMPY";
    assert header == "NUMPY" ==> ok by {
      if header == "NUMPY" { CStrOfPlain(header); }
    }
    assert header == "NUMPY" <==> MagicField(file) == MAGIC;
    ok
  }
}
