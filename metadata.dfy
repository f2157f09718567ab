/** populate_metadata: the character-level state machine that reads the
    118-byte header dictionary at offset 10 and fills in the Metadata record.

    The machine is specified by the pure functions Lex/Step/Run; the method
    PopulateMetadata is the C++ loop, proved to compute ParseMetadata. */
module MetadataParser {
  import opened Format
  import opened CText

  /** The parser's `expect` variable: 0 start, 1 key or end, 2 value, 3 nothing. */
  datatype Expect = Open | KeyOrEnd | Value | Nothing

  /** The lexer's variables: `expect`, `popen`, the token buffer `buf` and the
      last completed key and value. */
  datatype Lexer = Lexer(expecting: Expect, popen: bool, buf: string, lastKey: string, lastVal: string)

  const INITIAL_LEXER := Lexer(Open, false, [], [], [])

  /** The whole machine state: the lexer and the record it writes. */
  datatype State = State(lx: Lexer, md: Metadata)

  function Start(md0: Metadata): State
  {
    State(INITIAL_LEXER, md0)
  }

  /** Characters that are never stored: the space and the single quote. */
  predicate Skipped(c: char)
  {
    c == ' ' || c == '\''
  }

  /** Reading c in lx finishes a key/value pair (a comma outside parentheses
      while a value is expected). */
  predicate Completes(lx: Lexer, c: char)
  {
    lx.expecting == Value && c == ',' && !lx.popen
  }

  /** One iteration of the loop, as far as the lexer variables go. */
  function Lex(lx: Lexer, c: char): Lexer
  {
    match lx.expecting
    case Open =>
      if c == '{' then lx.(expecting := KeyOrEnd, buf := []) else lx
    case KeyOrEnd =>
      if c == '}' then lx.(expecting := Nothing)
      else if c == ':' then lx.(lastKey := CStr(lx.buf), expecting := Value, buf := [])
      else if !Skipped(c) then lx.(buf := lx.buf + [c])
      else lx
    case Value =>
      if Completes(lx, c) then lx.(lastVal := CStr(lx.buf), buf := [], expecting := KeyOrEnd)
      else if !Skipped(c) then
        lx.(popen := if c == '(' then true else if c == ')' then false else lx.popen,
            buf := lx.buf + [c])
      else lx
    case Nothing => lx
  }

  /** One shape field: empty means 1, otherwise its decimal value. */
  function Dimension(field: string): nat
  {
    if |field| == 0 then 1 else Atoi(field)
  }

  /** The shape sub-parser's variables: its reuse of `buf`, and the record. */
  datatype ShapeState = ShapeState(buf: string, md: Metadata)

  /** One iteration of the loop over the characters of a shape value. */
  function ShapeStep(s: ShapeState, c: char): ShapeState
  {
    if c == ' ' || c == '(' then s
    else if c == ',' then ShapeState([], s.md.(rows := Dimension(s.buf)))
    else if c == ')' then ShapeState([], s.md.(cols := Dimension(s.buf)))
    else ShapeState(s.buf + [c], s.md)
  }

  function ShapeRun(s: ShapeState, v: string): ShapeState
  {
    if v == [] then s else ShapeStep(ShapeRun(s, v[..|v| - 1]), v[|v| - 1])
  }

  /** The record after re-scanning a shape value. */
  function ScanShape(val: string, md: Metadata): Metadata
  {
    ShapeRun(ShapeState([], md), val).md
  }

  lemma {:induction false} ShapeRunKeepsType(s: ShapeState, v: string)
    ensures ShapeRun(s, v).md.numType == s.md.numType
  {
    if v != [] {
      ShapeRunKeepsType(s, v[..|v| - 1]);
    }
  }

  /** What a completed pair does to the record: "descr" selects the type code,
      "shape" sets the dimensions, every other key changes nothing. */
  function Dispatch(key: string, val: string, md: Metadata): (r: Metadata)
    ensures key != "shape" ==> r.rows == md.rows && r.cols == md.cols
    ensures key != "descr" ==> r.numType == md.numType
    ensures key == "descr" ==>
      r.numType == (if val == "<i8" then INT64 else if val == "<f8" then FLOAT64 else md.numType)
  {
    if key == "descr" then
      if val == "<i8" then md.(numType := INT64)
      else if val == "<f8" then md.(numType := FLOAT64)
      else md
    else if key == "shape" then
      ShapeRunKeepsType(ShapeState([], md), val);
      ScanShape(val, md)
    else md
  }

  /** One iteration of the loop over the dictionary text. */
  function Step(s: State, c: char): State
  {
    var lx := Lex(s.lx, c);
    State(lx, if Completes(s.lx, c) then Dispatch(lx.lastKey, lx.lastVal, s.md) else s.md)
  }

  function Run(s: State, t: string): State
  {
    if t == [] then s else Step(Run(s, t[..|t| - 1]), t[|t| - 1])
  }

  function LexRun(lx: Lexer, t: string): Lexer
  {
    if t == [] then lx else Lex(LexRun(lx, t[..|t| - 1]), t[|t| - 1])
  }

  /** The record after the loop has read the whole text. */
  function ParseMetadata(text: string, md0: Metadata): Metadata
  {
    Run(Start(md0), text).md
  }

  /** npy_parser's fixed-size buffers suffice: scanning text never makes the
      token buffer reach BUF_SIZE characters (so `buf`, `last_key` and
      `last_val` always hold their string and its terminator). */
  predicate TokensFit(text: string)
  {
    forall k :: 0 <= k <= |text| ==> |LexRun(INITIAL_LEXER, text[..k]).buf| < BUF_SIZE
  }

  /** The dictionary window of a file. */
  function Window(file: seq<byte>): (text: string)
    requires |file| >= PAYLOAD_OFFSET
    ensures |text| == DICT_LENGTH
  {
    Chars(file[DICT_OFFSET..DICT_OFFSET + DICT_LENGTH])
  }

  // ---------------------------------------------------------------------
  // The C++ loop

  /** The loop of the "shape" branch, which re-scans the value using `buf`
      as its digit buffer. */
  method PopulateShape(val: string, md0: Metadata) returns (md: Metadata)
    ensures md == ScanShape(val, md0)
  {
    var buf: string := [];
    md := md0;
    for j := 0 to |val|
      invariant ShapeState(buf, md) == ShapeRun(ShapeState([], md0), val[..j])
    {
      var d := val[j];
      assert val[..j + 1][..j] == val[..j];
      if d == ' ' || d == '(' {
        continue;
      } else if d == ',' {
        md := md.(rows := if |buf| == 0 then 1 else Atoi(buf));
        buf := [];
      } else if d == ')' {
        md := md.(cols := if |buf| == 0 then 1 else Atoi(buf));
        buf := [];
      } else {
        buf := buf + [d];
      }
    }
    assert val[..|val|] == val;
  }

  method PopulateMetadata(file: seq<byte>, md0: Metadata) returns (md: Metadata)
    requires |file| >= PAYLOAD_OFFSET
    requires TokensFit(Window(file))
    ensures md == ParseMetadata(Window(file), md0)
  {
    var dict := Chars(file[DICT_OFFSET..DICT_OFFSET + DICT_LENGTH]);
    var expecting := Open;
    var popen := false;
    var buf: string := [];
    var lastKey: string := [];
    var lastVal: string := [];
    md := md0;
    for i := 0 to DICT_LENGTH
      invariant State(Lexer(expecting, popen, buf, lastKey, lastVal), md) == Run(Start(md0), dict[..i])
      invariant |buf| < BUF_SIZE && |lastKey| < BUF_SIZE && |lastVal| < BUF_SIZE
    {
      var c := dict[i];
      ghost var before := State(Lexer(expecting, popen, buf, lastKey, lastVal), md);
      assert Run(Start(md0), dict[..i + 1]) == Step(before, c) by {
        assert dict[..i + 1][..i] == dict[..i];
      }
      match expecting {
        case Open =>
          if c == '{' {
            expecting := KeyOrEnd;
            buf := [];
          }
        case KeyOrEnd =>
          if c == '}' {
            expecting := Nothing;
          } else if c == ':' {
            lastKey := CStr(buf);
            expecting := Value;
            buf := [];
          } else if c != ' ' && c != '\'' {
            buf := buf + [c];
          }
        case Value =>
          if c == ',' && !popen {
            lastVal := CStr(buf);
            buf := [];
            if lastKey == "descr" {
              if lastVal == "<i8" {
                md := md.(numType := INT64);
              } else if lastVal == "<f8" {
                md := md.(numType := FLOAT64);
              }
            } else if lastKey == "shape" {
              md := PopulateShape(lastVal, md);
            }
            expecting := KeyOrEnd;
            buf := [];
          } else if c != ' ' && c != '\'' {
            if c == '(' {
              popen := true;
            } else if c == ')' {
              popen := false;
            }
            buf := buf + [c];
          }
        case Nothing =>
      }
      RunLexer(Start(md0), dict[..i + 1]);
    }
    assert dict[..DICT_LENGTH] == dict;
  }

  // ---------------------------------------------------------------------
  // Properties of the machine

  lemma {:induction false} RunLexer(s: State, t: string)
    ensures Run(s, t).lx == LexRun(s.lx, t)
  {
    if t != [] {
      RunLexer(s, t[..|t| - 1]);
    }
  }

  lemma {:induction false} RunAppend(s: State, p: string, q: string)
    ensures Run(s, p + q) == Run(Run(s, p), q)
  {
    if q == [] {
      assert p + q == p;
    } else {
      RunAppend(s, p, q[..|q| - 1]);
      assert (p + q)[..|p + q| - 1] == p + q[..|q| - 1];
      assert (p + q)[|p + q| - 1] == q[|q| - 1];
    }
  }

  lemma RunOne(s: State, c: char)
    ensures Run(s, [c]) == Step(s, c)
  {
    assert [c][..0] == [];
  }

  /** Before the first `{` nothing happens. */
  lemma {:induction false} OpenWaits(s: State, p: string)
    requires s.lx.expecting == Open && '{' !in p
    ensures Run(s, p) == s
  {
    if p != [] {
      OpenWaits(s, p[..|p| - 1]);
    }
  }

  /** Characters before the first `{` have no effect on the result. */
  lemma BeforeOpenIgnored(p: string, q: string, md0: Metadata)
    requires '{' !in p
    ensures ParseMetadata(p + q, md0) == ParseMetadata(q, md0)
  {
    RunAppend(Start(md0), p, q);
    OpenWaits(Start(md0), p);
  }

  /** Once the dictionary is closed every later character is ignored. */
  lemma {:induction false} NothingIgnoresRest(s: State, q: string)
    requires s.lx.expecting == Nothing
    ensures Run(s, q) == s
  {
    if q != [] {
      NothingIgnoresRest(s, q[..|q| - 1]);
    }
  }

  /** A `}` read while a key is expected ends parsing: the record is then final. */
  lemma CloseEndsParsing(p: string, q: string, md0: Metadata)
    requires LexRun(INITIAL_LEXER, p).expecting == KeyOrEnd
    ensures ParseMetadata(p + ['}'] + q, md0) == ParseMetadata(p, md0)
  {
    var s := Run(Start(md0), p);
    RunLexer(Start(md0), p);
    RunAppend(Start(md0), p, ['}']);
    assert Run(s, ['}']) == Step(s, '}');
    RunAppend(Start(md0), p + ['}'], q);
    NothingIgnoresRest(Step(s, '}'), q);
  }

  /** The record changes only at a comma: in particular a final pair with no
      comma after it is never dispatched. */
  lemma {:induction false} NoCommaNoDispatch(s: State, q: string)
    requires ',' !in q
    ensures Run(s, q).md == s.md
  {
    if q != [] {
      NoCommaNoDispatch(s, q[..|q| - 1]);
    }
  }

  predicate NoSkipped(t: string)
  {
    forall k :: 0 <= k < |t| ==> !Skipped(t[k])
  }

  /** No token holds a space or a quote. */
  predicate Clean(lx: Lexer)
  {
    NoSkipped(lx.buf) && NoSkipped(lx.lastKey) && NoSkipped(lx.lastVal)
  }

  /** Spaces and quotes are never added to a key or a value. */
  lemma {:induction false} TokensStayClean(lx: Lexer, t: string)
    requires Clean(lx)
    ensures Clean(LexRun(lx, t))
  {
    if t != [] {
      TokensStayClean(lx, t[..|t| - 1]);
    }
  }

  /** The characters of t other than spaces and quotes, in order. */
  function Strip(t: string): (r: string)
    ensures |r| <= |t| && NoSkipped(r)
    ensures forall c :: c in r ==> c in t
  {
    if t == [] then [] else
    var last := t[|t| - 1];
    Strip(t[..|t| - 1]) + (if Skipped(last) then [] else [last])
  }

  lemma {:induction false} StripAppend(p: string, q: string)
    ensures Strip(p + q) == Strip(p) + Strip(q)
  {
    if q == [] {
      assert p + q == p;
    } else {
      StripAppend(p, q[..|q| - 1]);
      assert (p + q)[..|p + q| - 1] == p + q[..|q| - 1];
      assert (p + q)[|p + q| - 1] == q[|q| - 1];
    }
  }

  lemma {:induction false} StripKeeps(t: string)
    requires NoSkipped(t)
    ensures Strip(t) == t
  {
    if t != [] {
      StripKeeps(t[..|t| - 1]);
    }
  }

  lemma {:induction false} StripDrops(t: string)
    requires forall k :: 0 <= k < |t| ==> Skipped(t[k])
    ensures Strip(t) == []
  {
    if t != [] {
      StripDrops(t[..|t| - 1]);
    }
  }

  /** Padding and quotes around a token are dropped: `  'tok'` gives tok. */
  lemma StripQuoted(pad: string, tok: string)
    requires forall k :: 0 <= k < |pad| ==> Skipped(pad[k])
    requires NoSkipped(tok)
    ensures Strip(pad + tok + "'") == tok
  {
    var front, quote := pad + tok, "'";
    assert Strip(front) == tok by {
      StripAppend(pad, tok);
      StripDrops(pad);
      StripKeeps(tok);
    }
    assert Strip(quote) == [] by {
      StripDrops(quote);
    }
    StripAppend(front, quote);
  }

  /** The token buffer never holds more characters than the text has
      non-space, non-quote characters. */
  lemma {:induction false} BufBound(t: string)
    ensures |LexRun(INITIAL_LEXER, t).buf| <= |Strip(t)|
  {
    if t != [] {
      var front := t[..|t| - 1];
      BufBound(front);
      assert Strip(t) == Strip(front) + (if Skipped(t[|t| - 1]) then [] else [t[|t| - 1]]);
    }
  }

  /** A dictionary with fewer than BUF_SIZE stored characters fits the
      npy_parser's buffers. */
  lemma ShortTextFits(text: string)
    requires |Strip(text)| < BUF_SIZE
    ensures TokensFit(text)
  {
    forall k | 0 <= k <= |text|
      ensures |LexRun(INITIAL_LEXER, text[..k]).buf| < BUF_SIZE
    {
      BufBound(text[..k]);
      assert text[..k] + text[k..] == text;
      StripAppend(text[..k], text[k..]);
    }
  }

  /** Reading c in lx only stores it (or skips it): c is not `:` or `}` in a
      key, and in a value it neither ends the value nor opens or closes the
      parenthesis state (a comma inside parentheses is such a character). */
  predicate Stores(lx: Lexer, c: char)
  {
    || (lx.expecting == KeyOrEnd && c != '}' && c != ':')
    || (lx.expecting == Value && (if lx.popen then c != ')' else c != ',' && c != '('))
  }

  /** A run of such characters appends exactly their non-skipped part to the
      buffer and changes nothing else. */
  lemma {:induction false} StoreRun(s: State, q: string)
    requires forall k :: 0 <= k < |q| ==> Stores(s.lx, q[k])
    ensures Run(s, q) == State(s.lx.(buf := s.lx.buf + Strip(q)), s.md)
  {
    if q != [] {
      StoreRun(s, q[..|q| - 1]);
    }
  }

  /** A comma inside parentheses is kept as part of the value. */
  lemma CommaInParensKept(s: State, q: string)
    requires s.lx.expecting == Value && s.lx.popen && ')' !in q
    ensures Run(s, q) == State(s.lx.(buf := s.lx.buf + Strip(q)), s.md)
    ensures Run(s, q + [',']) == State(s.lx.(buf := s.lx.buf + Strip(q) + [',']), s.md)
  {
    StoreRun(s, q);
    RunAppend(s, q, [',']);
    assert Run(Run(s, q), [',']) == Step(Run(s, q), ',');
  }

  /** Text that can stand as a key: no `:`, `}` or NUL. */
  predicate KeyText(key: string)
  {
    forall k :: 0 <= k < |key| ==> key[k] != ':' && key[k] != '}' && key[k] != '\0'
  }

  /** Text that can stand as an unparenthesised value: no `,`, `(` or NUL. */
  predicate AtomText(val: string)
  {
    forall k :: 0 <= k < |val| ==> val[k] != ',' && val[k] != '(' && val[k] != '\0'
  }

  /** Text that can stand inside a parenthesised value: no `)` or NUL. */
  predicate TupleText(inner: string)
  {
    forall k :: 0 <= k < |inner| ==> inner[k] != ')' && inner[k] != '\0'
  }

  /** The state in which a new key is read: after `{` or after a pair. */
  predicate AtKey(s: State)
  {
    s.lx.expecting == KeyOrEnd && s.lx.buf == [] && !s.lx.popen
  }

  /** A key and `:` make the stripped key the current key. */
  lemma KeyRun(s: State, key: string)
    requires AtKey(s) && KeyText(key)
    ensures Run(s, key + [':']) == State(s.lx.(lastKey := Strip(key), expecting := Value), s.md)
  {
    StoreRun(s, key);
    RunAppend(s, key, [':']);
    assert Run(Run(s, key), [':']) == Step(Run(s, key), ':');
    CStrOfPlain(Strip(key));
  }

  /** One dictionary entry `key: value,` with a plain value: the stripped
      key and value become current and the pair is dispatched. */
  lemma AtomEntry(s: State, key: string, val: string)
    requires AtKey(s) && KeyText(key) && AtomText(val)
    ensures Run(s, key + [':'] + val + [','])
         == State(Lexer(KeyOrEnd, false, [], Strip(key), Strip(val)), Dispatch(Strip(key), Strip(val), s.md))
  {
    KeyRun(s, key);
    var s1 := Run(s, key + [':']);
    StoreRun(s1, val);
    assert s1.lx.buf == [];
    assert Run(s1, val) == State(s1.lx.(buf := Strip(val)), s.md);
    assert '\0' !in Strip(val);
    EntryRun(s, key, val, Strip(val));
  }

  /** A parenthesised group read in a value is stored whole, commas included,
      and leaves the parenthesis state closed again. */
  lemma ParenRun(s: State, inner: string)
    requires s.lx.expecting == Value && !s.lx.popen && TupleText(inner)
    ensures Run(s, ['('] + inner + [')'])
         == State(s.lx.(buf := s.lx.buf + ['('] + Strip(inner) + [')']), s.md)
  {
    var s1 := Step(s, '(');
    assert !Completes(s.lx, '(') && !Skipped('(');
    assert s1 == State(s.lx.(popen := true, buf := s.lx.buf + ['(']), s.md);
    StoreRun(s1, inner);
    var s2 := Run(s1, inner);
    RunAppend(s, ['('], inner);
    assert Run(s, ['(']) == s1;
    RunAppend(s, ['('] + inner, [')']);
    assert Run(s2, [')']) == Step(s2, ')');
  }

  /** A value `pre(inner)` read up to its closing parenthesis. */
  lemma TupleValueRun(s: State, pre: string, inner: string)
    requires s.lx.expecting == Value && !s.lx.popen && AtomText(pre) && TupleText(inner)
    ensures Run(s, pre + ['('] + inner + [')'])
         == State(s.lx.(buf := s.lx.buf + Strip(pre) + ['('] + Strip(inner) + [')']), s.md)
  {
    var group := ['('] + inner + [')'];
    var s1 := Run(s, pre);
    assert s1 == State(s.lx.(buf := s.lx.buf + Strip(pre)), s.md) by {
      assert forall k :: 0 <= k < |pre| ==> Stores(s.lx, pre[k]);
      StoreRun(s, pre);
    }
    assert Run(s1, group) == State(s1.lx.(buf := s1.lx.buf + ['('] + Strip(inner) + [')']), s.md) by {
      ParenRun(s1, inner);
    }
    assert Run(s, pre + group) == Run(s1, group) by {
      RunAppend(s, pre, group);
    }
    assert pre + ['('] + inner + [')'] == pre + group;
  }

  /** A comma outside parentheses ends the value and dispatches the pair. */
  lemma CommaDispatches(s: State)
    requires s.lx.expecting == Value && !s.lx.popen && '\0' !in s.lx.buf
    ensures Run(s, [',']) == State(Lexer(KeyOrEnd, false, [], s.lx.lastKey, s.lx.buf),
                                   Dispatch(s.lx.lastKey, s.lx.buf, s.md))
  {
    assert Run(s, [',']) == Step(s, ',');
    CStrOfPlain(s.lx.buf);
  }

  /** A key, `:`, a value text that leaves val in the buffer, and `,`:
      the pair (stripped key, val) becomes current and is dispatched. */
  lemma EntryRun(s: State, key: string, v: string, val: string)
    requires AtKey(s) && KeyText(key) && '\0' !in val
    requires Run(Run(s, key + [':']), v) == State(Run(s, key + [':']).lx.(buf := val), s.md)
    ensures Run(s, key + [':'] + v + [','])
         == State(Lexer(KeyOrEnd, false, [], Strip(key), val), Dispatch(Strip(key), val, s.md))
  {
    var t := key + [':'];
    KeyRun(s, key);
    RunAppend(s, t, v);
    var s1 := Run(s, t);
    var s2 := Run(s, t + v);
    assert s2 == State(s1.lx.(buf := val), s.md);
    assert s2.lx == Lexer(Value, false, val, Strip(key), s.lx.lastVal);
    CommaDispatches(s2);
    RunAppend(s, t + v, [',']);
    assert Run(s, t + v + [',']) == Run(s2, [',']);
  }

  /** After a key and `:`, a value `pre(inner)` leaves its stripped text in
      the buffer. */
  lemma TupleAfterKey(s: State, key: string, pre: string, inner: string)
    requires AtKey(s) && KeyText(key) && AtomText(pre) && TupleText(inner)
    ensures var val := Strip(pre) + ['('] + Strip(inner) + [')'];
      Run(Run(s, key + [':']), pre + ['('] + inner + [')'])
      == State(Run(s, key + [':']).lx.(buf := val), s.md)
  {
    KeyRun(s, key);
    var s1 := Run(s, key + [':']);
    assert s1.lx.expecting == Value && !s1.lx.popen && s1.lx.buf == [] && s1.md == s.md;
    TupleValueRun(s1, pre, inner);
    assert [] + Strip(pre) == Strip(pre);
  }

  /** One dictionary entry `key: pre(inner),` whose value is parenthesised:
      commas inside the parentheses do not end it. */
  lemma TupleEntry(s: State, key: string, pre: string, inner: string)
    requires AtKey(s) && KeyText(key) && AtomText(pre) && TupleText(inner)
    ensures var val := Strip(pre) + ['('] + Strip(inner) + [')'];
      Run(s, key + [':'] + (pre + ['('] + inner + [')']) + [','])
      == State(Lexer(KeyOrEnd, false, [], Strip(key), val), Dispatch(Strip(key), val, s.md))
  {
    var val := Strip(pre) + ['('] + Strip(inner) + [')'];
    TupleAfterKey(s, key, pre, inner);
    assert '\0' !in val;
    EntryRun(s, key, pre + ['('] + inner + [')'], val);
  }

  // ---------------------------------------------------------------------
  // Properties of the shape sub-parser

  lemma {:induction false} ShapeRunAppend(s: ShapeState, p: string, q: string)
    ensures ShapeRun(s, p + q) == ShapeRun(ShapeRun(s, p), q)
  {
    if q == [] {
      assert p + q == p;
    } else {
      ShapeRunAppend(s, p, q[..|q| - 1]);
      assert (p + q)[..|p + q| - 1] == p + q[..|q| - 1];
      assert (p + q)[|p + q| - 1] == q[|q| - 1];
    }
  }

  /** Digits are collected into the field buffer. */
  lemma {:induction false} DigitsCollected(s: ShapeState, d: string)
    requires IsDigits(d)
    ensures ShapeRun(s, d) == ShapeState(s.buf + d, s.md)
  {
    if d != [] {
      DigitsCollected(s, d[..|d| - 1]);
      assert s.buf + d[..|d| - 1] + [d[|d| - 1]] == s.buf + d;
    }
  }

  /** The shape text without its spaces and `(`. */
  function Unpadded(v: string): string
  {
    if v == [] then [] else
    var last := v[|v| - 1];
    Unpadded(v[..|v| - 1]) + (if last == ' ' || last == '(' then [] else [last])
  }

  lemma ShapeRunOne(s: ShapeState, c: char)
    ensures ShapeRun(s, [c]) == ShapeStep(s, c)
  {
    assert [c][..0] == [];
  }

  /** Spaces and `(` in a shape value are skipped. */
  lemma {:induction false} ShapeSkipsPadding(s: ShapeState, v: string)
    ensures ShapeRun(s, v) == ShapeRun(s, Unpadded(v))
  {
    if v != [] {
      var init, last := v[..|v| - 1], v[|v| - 1];
      ShapeSkipsPadding(s, init);
      if last == ' ' || last == '(' {
        assert Unpadded(v) == Unpadded(init) + [];
        assert Unpadded(init) + [] == Unpadded(init);
      } else {
        ShapeRunAppend(s, Unpadded(init), [last]);
        ShapeRunOne(ShapeRun(s, Unpadded(init)), last);
      }
    }
  }

  /** A field followed by its terminator: digits give their value, an empty
      field gives 1. */
  lemma FieldThen(s: ShapeState, d: string, c: char)
    requires s.buf == [] && IsDigits(d) && (c == ',' || c == ')')
    ensures ShapeRun(s, d + [c]).buf == []
    ensures ShapeRun(s, d + [c]).md
         == if c == ',' then s.md.(rows := if d == [] then 1 else DecimalValue(d))
            else s.md.(cols := if d == [] then 1 else DecimalValue(d))
  {
    DigitsCollected(s, d);
    ShapeRunAppend(s, d, [c]);
    assert [] + d == d;
    ShapeRunOne(ShapeRun(s, d), c);
  }

  /** `(r,c)` sets rows to r and cols to c. */
  lemma ShapeOfPair(r: nat, c: nat, md: Metadata)
    ensures ScanShape("(" + Decimal(r) + "," + Decimal(c) + ")", md) == md.(rows := r, cols := c)
  {
    var s0 := ShapeState([], md);
    var a, b := Decimal(r) + ",", Decimal(c) + ")";
    assert "(" + Decimal(r) + "," + Decimal(c) + ")" == "(" + a + b;
    ShapeRunOne(s0, '(');
    ShapeRunAppend(s0, "(", a);
    FieldThen(s0, Decimal(r), ',');
    DecimalRoundTrip(r);
    var s1 := ShapeRun(s0, "(" + a);
    assert s1 == ShapeState([], md.(rows := r));
    ShapeRunAppend(s0, "(" + a, b);
    FieldThen(s1, Decimal(c), ')');
    DecimalRoundTrip(c);
  }

  /** `(n,)` sets rows to n and cols to 1. */
  lemma ShapeOfSingle(n: nat, md: Metadata)
    ensures ScanShape("(" + Decimal(n) + ",)", md) == md.(rows := n, cols := 1)
  {
    var s0 := ShapeState([], md);
    var a := Decimal(n) + ",";
    assert "(" + Decimal(n) + ",)" == "(" + a + ")";
    ShapeRunOne(s0, '(');
    ShapeRunAppend(s0, "(", a);
    FieldThen(s0, Decimal(n), ',');
    DecimalRoundTrip(n);
    var s1 := ShapeRun(s0, "(" + a);
    assert s1 == ShapeState([], md.(rows := n));
    ShapeRunAppend(s0, "(" + a, ")");
    ShapeRunOne(s1, ')');
  }

  /** `()` sets only cols, to 1; rows keeps its previous value. */
  lemma ShapeOfEmpty(md: Metadata)
    ensures ScanShape("()", md) == md.(cols := 1)
  {
    var s0 := ShapeState([], md);
    assert "()" == "(" + ")";
    ShapeRunAppend(s0, "(", ")");
    ShapeRunOne(s0, '(');
    ShapeRunOne(s0, ')');
  }
}
