/** Worked examples: a header dictionary as numpy writes it, parsed by the
    model of populate_metadata, and a file holding it read by the populators. */
module Scenarios {
  import opened Format
  import opened CText
  import opened MetadataParser
  import opened Header
  import opened Populators

  /** The dictionary of a 2 x 3 float64 array,
      {'descr': '<f8', 'fortran_order': False, 'shape': (2, 3), }
      written entry by entry. */
  const DESCR_ENTRY: string := "'descr'" + ":" + " '<f8'" + ","
  const FORTRAN_ENTRY: string := " 'fortran_order'" + ":" + " False" + ","
  const SHAPE_ENTRY: string := " 'shape'" + ":" + (" " + "(" + "2, 3" + ")") + ","
  const EXAMPLE_DICT: string := "{" + DESCR_ENTRY + FORTRAN_ENTRY + SHAPE_ENTRY + " }"

  lemma QuotedToken(pad: string, tok: string, text: string)
    requires (pad == "'" || pad == " '") && text == pad + tok + "'"
    requires tok == "descr" || tok == "<f8" || tok == "fortran_order" || tok == "shape"
    ensures Strip(text) == tok
  {
    StripQuoted(pad, tok);
  }

  /** AtomEntry with the stripped key and value named. */
  lemma AtomEntryAs(s: State, key: string, val: string, k: string, v: string)
    requires AtKey(s) && KeyText(key) && AtomText(val)
    requires Strip(key) == k && Strip(val) == v
    ensures Run(s, key + ":" + val + ",")
         == State(Lexer(KeyOrEnd, false, [], k, v), Dispatch(k, v, s.md))
  {
    AtomEntry(s, key, val);
    assert key + ":" + val + "," == key + [':'] + val + [','];
  }

  lemma DescrEntry(s: State, key: string, val: string)
    requires AtKey(s) && key == "'descr'" && val == " '<f8'"
    ensures Run(s, key + ":" + val + ",")
         == State(Lexer(KeyOrEnd, false, [], "descr", "<f8"), s.md.(numType := FLOAT64))
  {
    assert KeyText(key) && AtomText(val);
    assert Strip(key) == "descr" by {
      QuotedToken("'", "descr", key);
    }
    assert Strip(val) == "<f8" by {
      QuotedToken(" '", "<f8", val);
    }
    AtomEntryAs(s, key, val, "descr", "<f8");
  }

  lemma FortranEntry(s: State, key: string, val: string)
    requires AtKey(s) && key == " 'fortran_order'" && val == " False"
    ensures Run(s, key + ":" + val + ",")
         == State(Lexer(KeyOrEnd, false, [], "fortran_order", "False"), s.md)
  {
    assert KeyText(key) && AtomText(val);
    assert Strip(key) == "fortran_order" by {
      QuotedToken(" '", "fortran_order", key);
    }
    assert Strip(val) == "False" by {
      assert val == " " + "False";
      StripAppend(" ", "False");
      StripDrops(" ");
      StripKeeps("False");
    }
    AtomEntryAs(s, key, val, "fortran_order", "False");
  }

  lemma InnerTokens(inner: string, i1: string, i2: string, i3: string)
    requires inner == "2, 3" && i1 == "2," && i2 == " " && i3 == "3"
    ensures Strip(inner) == "2,3"
  {
    assert inner == i1 + i2 + i3;
    assert Strip(i1) == i1 by {
      StripKeeps(i1);
    }
    assert Strip(i2) == [] by {
      StripDrops(i2);
    }
    assert Strip(i3) == i3 by {
      StripKeeps(i3);
    }
    assert Strip(inner) == Strip(i1) + Strip(i2) + Strip(i3) by {
      StripAppend(i1 + i2, i3);
      StripAppend(i1, i2);
    }
  }

  lemma TupleTokens(pre: string, inner: string)
    requires pre == " " && inner == "2, 3"
    ensures Strip(pre) + "(" + Strip(inner) + ")" == "(2,3)"
  {
    assert Strip(pre) == [] by {
      StripDrops(pre);
    }
    InnerTokens(inner, "2,", " ", "3");
  }

  /** TupleEntry with the stripped key and value named. */
  lemma TupleEntryAs(s: State, key: string, pre: string, inner: string, k: string, v: string)
    requires AtKey(s) && KeyText(key) && AtomText(pre) && TupleText(inner)
    requires Strip(key) == k && Strip(pre) + ['('] + Strip(inner) + [')'] == v
    ensures Run(s, key + ":" + (pre + "(" + inner + ")") + ",")
         == State(Lexer(KeyOrEnd, false, [], k, v), Dispatch(k, v, s.md))
  {
    TupleEntry(s, key, pre, inner);
    assert key + ":" + (pre + "(" + inner + ")") + "," == key + [':'] + (pre + ['('] + inner + [')']) + [','];
  }

  lemma ShapeText()
    ensures "(" + Decimal(2) + "," + Decimal(3) + ")" == "(2,3)"
  {
    assert Decimal(2) == "2" && Decimal(3) == "3";
  }

  /** Dispatching a shape pair `(r,c)`. */
  lemma ShapeDispatch(k: string, v: string, r: nat, c: nat, md: Metadata)
    requires k == "shape" && v == "(" + Decimal(r) + "," + Decimal(c) + ")"
    ensures Dispatch(k, v, md) == md.(rows := r, cols := c)
  {
    ShapeOfPair(r, c, md);
  }

  lemma ShapeEntry(s: State, key: string, pre: string, inner: string)
    requires AtKey(s) && key == " 'shape'" && pre == " " && inner == "2, 3"
    ensures Run(s, key + ":" + (pre + "(" + inner + ")") + ",")
         == State(Lexer(KeyOrEnd, false, [], "shape", "(2,3)"), s.md.(rows := 2, cols := 3))
  {
    assert KeyText(key) && AtomText(pre) && TupleText(inner);
    assert Strip(key) == "shape" by {
      QuotedToken(" '", "shape", key);
    }
    assert Strip(pre) + ['('] + Strip(inner) + [')'] == "(2,3)" by {
      TupleTokens(pre, inner);
    }
    TupleEntryAs(s, key, pre, inner, "shape", "(2,3)");
    ShapeText();
    ShapeDispatch("shape", "(2,3)", 2, 3, s.md);
  }

  /** Whatever the padding after it and whatever the record held before, this
      dictionary yields type code 2 and shape 2 x 3. */
  lemma ExampleDictionary(rest: string, md0: Metadata)
    ensures ParseMetadata(EXAMPLE_DICT + rest, md0) == Metadata(FLOAT64, 2, 3)
  {
    var s0 := Start(md0);
    var e1, e2, e3 := DESCR_ENTRY, FORTRAN_ENTRY, SHAPE_ENTRY;

    RunOne(s0, '{');
    var s1 := Run(s0, "{");
    RunAppend(s0, "{", e1);
    DescrEntry(s1, "'descr'", " '<f8'");
    var s2 := Run(s0, "{" + e1);
    RunAppend(s0, "{" + e1, e2);
    FortranEntry(s2, " 'fortran_order'", " False");
    var s3 := Run(s0, "{" + e1 + e2);
    RunAppend(s0, "{" + e1 + e2, e3);
    ShapeEntry(s3, " 'shape'", " ", "2, 3");
    var s4 := Run(s0, "{" + e1 + e2 + e3);
    assert s4.md == Metadata(FLOAT64, 2, 3) && s4.lx.expecting == KeyOrEnd;

    assert " }" == [' '] + ['}'];
    RunAppend(s4, [' '], ['}']);
    RunOne(s4, ' ');
    RunOne(s4, '}');
    var s5 := Run(s4, " }");
    RunAppend(s0, "{" + e1 + e2 + e3, " }");
    RunAppend(s0, EXAMPLE_DICT, rest);
    NothingIgnoresRest(s5, rest);
  }

  /** A header window as numpy writes it for this array: the dictionary, then
      space padding and a newline up to the 118th character. It fits the
      npy_parser's buffers and describes a 2 x 3 float64 array, whatever the
      record held before. */
  lemma ExampleWindow(file: seq<byte>, pad: string, md0: Metadata)
    requires |file| >= PAYLOAD_OFFSET
    requires Window(file) == EXAMPLE_DICT + pad + "\n"
    requires forall k :: 0 <= k < |pad| ==> pad[k] == ' '
    ensures MetadataReadable(file)
    ensures ReadMetadata(file, md0) == Metadata(FLOAT64, 2, 3)
  {
    var text, nl := Window(file), "\n";
    assert |Strip(text)| < BUF_SIZE by {
      assert Strip(pad) == [] by {
        StripDrops(pad);
      }
      StripAppend(EXAMPLE_DICT, pad);
      StripAppend(EXAMPLE_DICT + pad, nl);
      assert |EXAMPLE_DICT| == 59;
    }
    ShortTextFits(text);
    assert text == EXAMPLE_DICT + (pad + nl);
    ExampleDictionary(pad + nl, md0);
  }

  /** With the magic in place and the six payload words present, such a file
      is one every populator can read, and populate_vector delivers six
      values. */
  lemma ExampleFile(file: seq<byte>, pad: string, md0: Metadata)
    requires |file| >= PAYLOAD_OFFSET + 6 * ELEM_SIZE && CheckHeader(file)
    requires Window(file) == EXAMPLE_DICT + pad + "\n"
    requires forall k :: 0 <= k < |pad| ==> pad[k] == ' '
    ensures PayloadReadable(file, md0)
    ensures VectorResult(file, md0).Ok? && |VectorResult(file, md0).value| == 6
  {
    ExampleWindow(file, pad, md0);
  }
}
