/**
 * The write side of csv_stream.h as functions: how `escape_and_output` and
 * `escape_str_and_output` turn a value into field text, and how the `<<`
 * operators of `ostringstream` put fields, delimiters and line feeds into
 * the output.  The class in module Writer is proved against these.
 */
module Formatter {
  import opened Wrappers
  import opened Text
  import opened Conversion
  import opened Separator

  /** The escape settings of a writer. */
  datatype Format = Format(
    delimiter: string,
    escapeStr: string,
    surroundQuoteOnStr: bool,
    surroundQuote: char,
    quoteEscape: string,
    newlineEscape: string)

  /** Every assignment to the delimiter stores a single character. */
  predicate ValidFormat(f: Format)
  {
    |f.delimiter| == 1
  }

  /** `escape_and_output`: the delimiter replaced by its escape text, unless that text is empty. */
  function EscapePlain(f: Format, src: string): string
    requires ValidFormat(f)
  {
    if f.escapeStr == [] then src else ReplaceAll(src, f.delimiter, f.escapeStr)
  }

  /**
   * `escape_str_and_output`: escape the delimiter, then line feeds; then, if
   * quoting is switched on or a delimiter is still present, escape the quote
   * character and enclose the text in quotes.
   */
  function EscapeStr(f: Format, src: string): string
    requires ValidFormat(f)
  {
    var s2 := EscapeNewline(f, EscapePlain(f, src));
    if f.surroundQuoteOnStr || Find(s2, f.delimiter, 0).Some? then Quoted(f, s2) else s2
  }

  /** Line feeds replaced by their escape text, unless that text is empty. */
  function EscapeNewline(f: Format, s: string): string
  {
    if f.newlineEscape != [] then ReplaceAll(s, "\n", f.newlineEscape) else s
  }

  /** The text with its quote characters escaped (when there is an escape text), enclosed in quotes. */
  function Quoted(f: Format, s: string): string
  {
    var s3 := if f.quoteEscape != [] && f.surroundQuote in s then ReplaceAll(s, [f.surroundQuote], f.quoteEscape) else s;
    [f.surroundQuote] + s3 + [f.surroundQuote]
  }

  /** What can be put into a writer with `<<`. */
  datatype Value =
    | Str(s: string)     // `std::string` and `const char*`
    | Chr(c: char)       // `char`; a line feed ends the row
    | NChr(code: int)    // `NChar`: the character's code as a number
    | Num(n: int)        // integer types, through `std::to_string`
    | Separator(sep: Sep)

  /** Whether a value is a field (anything but a line feed or a `sep`). */
  predicate IsField(v: Value)
  {
    !v.Separator? && v != Chr('\n')
  }

  /** The text a field contributes, after its escaping. */
  function FieldText(f: Format, v: Value): string
    requires ValidFormat(f) && IsField(v)
  {
    match v
    case Str(s) => EscapeStr(f, s)
    case Chr(c) => EscapeStr(f, [c])
    case NChr(code) => EscapeStr(f, DecimalString(code))
    case Num(n) => EscapePlain(f, DecimalString(n))
  }

  /** The observable state of an `ostringstream`. */
  datatype WriterState = WriterState(afterNewline: bool, fmt: Format, text: string)

  /** The delimiter written before a field that does not start a row. */
  function Lead(w: WriterState): string
  {
    if !w.afterNewline && |w.fmt.delimiter| > 0 then [w.fmt.delimiter[0]] else []
  }

  /**
   * One `<<`: a `sep` changes the delimiter and its escape text only; a line
   * feed is written as is and starts a new row; any other value writes the
   * delimiter (unless it starts the row) and its field text.
   */
  function Insert(w: WriterState, v: Value): (r: WriterState)
    requires ValidFormat(w.fmt)
    ensures ValidFormat(r.fmt)
    ensures |w.text| <= |r.text| && r.text[..|w.text|] == w.text
    ensures r.afterNewline <==> v == Chr('\n') || (v.Separator? && w.afterNewline)
    ensures !v.Separator? ==> r.fmt == w.fmt
    ensures v.Separator? ==> r == w.(fmt := w.fmt.(delimiter := [v.sep.delimiter], escapeStr := v.sep.escape))
  {
    match v
    case Separator(sep) => w.(fmt := w.fmt.(delimiter := [sep.delimiter], escapeStr := sep.escape))
    case _ =>
      if v == Chr('\n') then WriterState(true, w.fmt, w.text + "\n")
      else WriterState(false, w.fmt, w.text + Lead(w) + FieldText(w.fmt, v))
  }

  /** A sequence of `<<`, left to right. */
  function InsertAll(w: WriterState, vs: seq<Value>): WriterState
    requires ValidFormat(w.fmt)
    decreases |vs|
  {
    if vs == [] then w else InsertAll(Insert(w, vs[0]), vs[1..])
  }

  /** The field texts of a sequence of fields. */
  function FieldTexts(f: Format, vs: seq<Value>): (ts: seq<string>)
    requires ValidFormat(f) && forall i :: 0 <= i < |vs| ==> IsField(vs[i])
    ensures |ts| == |vs|
  {
    if vs == [] then [] else [FieldText(f, vs[0])] + FieldTexts(f, vs[1..])
  }

  /** The i-th field text is the text of the i-th field. */
  lemma {:induction false} FieldTextsAt(f: Format, vs: seq<Value>)
    requires ValidFormat(f) && forall i :: 0 <= i < |vs| ==> IsField(vs[i])
    ensures forall i :: 0 <= i < |vs| ==> FieldTexts(f, vs)[i] == FieldText(f, vs[i])
    decreases |vs|
  {
    if vs != [] {
      FieldTextsAt(f, vs[1..]);
      var ts := FieldTexts(f, vs);
      assert forall i :: 1 <= i < |vs| ==> ts[i] == FieldTexts(f, vs[1..])[i - 1];
    }
  }

  // ----- the output only grows -----

  /** Whatever is inserted, earlier output is never changed, and the format stays valid. */
  lemma {:induction false} InsertAllExtends(w: WriterState, vs: seq<Value>)
    requires ValidFormat(w.fmt)
    ensures ValidFormat(InsertAll(w, vs).fmt)
    ensures |w.text| <= |InsertAll(w, vs).text| && InsertAll(w, vs).text[..|w.text|] == w.text
    decreases |vs|
  {
    if vs != [] {
      var w1 := Insert(w, vs[0]);
      InsertAllExtends(w1, vs[1..]);
      var r := InsertAll(w1, vs[1..]);
      assert r.text[..|w.text|] == r.text[..|w1.text|][..|w.text|];
    }
  }

  // ----- row layout -----

  /**
   * Fields that follow the first field of a row: each is preceded by the
   * delimiter, so the row grows by the fields joined with delimiters.
   */
  lemma {:induction false} InsertFieldsAfterFirst(w: WriterState, vs: seq<Value>)
    requires ValidFormat(w.fmt) && !w.afterNewline
    requires forall i :: 0 <= i < |vs| ==> IsField(vs[i])
    ensures InsertAll(w, vs) ==
      if vs == [] then w
      else WriterState(false, w.fmt, w.text + [w.fmt.delimiter[0]] + Join(FieldTexts(w.fmt, vs), w.fmt.delimiter[0]))
    decreases |vs|
  {
    if vs != [] {
      var d := w.fmt.delimiter[0];
      var w1 := Insert(w, vs[0]);
      InsertField(w, vs[0]);
      assert w1 == WriterState(false, w.fmt, w.text + [d] + FieldText(w.fmt, vs[0]));
      InsertFieldsAfterFirst(w1, vs[1..]);
      var ts := FieldTexts(w.fmt, vs);
      assert ts[1..] == FieldTexts(w.fmt, vs[1..]);
      if |vs| > 1 {
        assert Join(ts, d) == ts[0] + [d] + Join(ts[1..], d);
      }
    }
  }

  /** A field is written after its lead. */
  lemma InsertField(w: WriterState, v: Value)
    requires ValidFormat(w.fmt) && IsField(v)
    ensures Insert(w, v) == WriterState(false, w.fmt, w.text + Lead(w) + FieldText(w.fmt, v))
  {
  }

  /** Fields written at the start of a row add the field texts joined by the delimiter. */
  lemma InsertFieldsAtRowStart(w: WriterState, vs: seq<Value>)
    requires ValidFormat(w.fmt) && w.afterNewline && |vs| > 0
    requires forall i :: 0 <= i < |vs| ==> IsField(vs[i])
    ensures InsertAll(w, vs) == WriterState(false, w.fmt, w.text + Join(FieldTexts(w.fmt, vs), w.fmt.delimiter[0]))
  {
    var w1 := FirstFieldOfRow(w, vs);
    RowAfterFirstField(w.fmt, w.text, vs);
  }

  /** The rest of a row, after its first field, completes the joined field texts. */
  lemma RowAfterFirstField(f: Format, text: string, vs: seq<Value>)
    requires ValidFormat(f) && |vs| > 0
    requires forall i :: 0 <= i < |vs| ==> IsField(vs[i])
    ensures InsertAll(WriterState(false, f, text + FieldText(f, vs[0])), vs[1..]) ==
      WriterState(false, f, text + Join(FieldTexts(f, vs), f.delimiter[0]))
  {
    if |vs| == 1 {
      JoinFieldTexts(f, vs);
    } else {
      RowOfSeveralFields(f, text, vs);
    }
  }

  /** The several-field case of `RowAfterFirstField`. */
  lemma RowOfSeveralFields(f: Format, text: string, vs: seq<Value>)
    requires ValidFormat(f) && |vs| > 1
    requires forall i :: 0 <= i < |vs| ==> IsField(vs[i])
    ensures InsertAll(WriterState(false, f, text + FieldText(f, vs[0])), vs[1..]) ==
      WriterState(false, f, text + Join(FieldTexts(f, vs), f.delimiter[0]))
  {
    var d := f.delimiter[0];
    var head := FieldText(f, vs[0]);
    var tail := Join(FieldTexts(f, vs[1..]), d);
    InsertFieldsAfterFirst(WriterState(false, f, text + head), vs[1..]);
    JoinFieldTexts(f, vs);
    ConcatAssoc(text, head, [d]);
    ConcatAssoc(text, head + [d], tail);
  }

  /** The first field of a row is written without a lead. */
  lemma FirstFieldOfRow(w: WriterState, vs: seq<Value>) returns (w1: WriterState)
    requires ValidFormat(w.fmt) && w.afterNewline && |vs| > 0
    requires forall i :: 0 <= i < |vs| ==> IsField(vs[i])
    ensures w1 == WriterState(false, w.fmt, w.text + FieldText(w.fmt, vs[0]))
    ensures InsertAll(w, vs) == InsertAll(w1, vs[1..])
  {
    InsertField(w, vs[0]);
    w1 := Insert(w, vs[0]);
  }

  /** Joining field texts: the first text, then the delimiter before each of the rest. */
  lemma JoinFieldTexts(f: Format, vs: seq<Value>)
    requires ValidFormat(f) && |vs| > 0
    requires forall i :: 0 <= i < |vs| ==> IsField(vs[i])
    ensures Join(FieldTexts(f, vs), f.delimiter[0]) ==
      if |vs| == 1 then FieldText(f, vs[0])
      else FieldText(f, vs[0]) + [f.delimiter[0]] + Join(FieldTexts(f, vs[1..]), f.delimiter[0])
  {
    var ts := FieldTexts(f, vs);
    assert ts == [FieldText(f, vs[0])] + FieldTexts(f, vs[1..]);
  }

  /**
   * A row written at the start of a line -- its fields, then a line feed --
   * adds exactly the field texts joined by the delimiter and a line feed, and
   * leaves the writer at the start of the next line.
   */
  lemma RowLayout(w: WriterState, vs: seq<Value>)
    requires ValidFormat(w.fmt) && w.afterNewline && |vs| > 0
    requires forall i :: 0 <= i < |vs| ==> IsField(vs[i])
    ensures InsertAll(w, vs + [Chr('\n')]) ==
      WriterState(true, w.fmt, w.text + Join(FieldTexts(w.fmt, vs), w.fmt.delimiter[0]) + "\n")
  {
    InsertAllConcat(w, vs, [Chr('\n')]);
    InsertFieldsAtRowStart(w, vs);
    var w2 := InsertAll(w, vs);
    assert InsertAll(w2, [Chr('\n')]) == Insert(w2, Chr('\n'));
  }

  /** Inserting two sequences one after the other is inserting their concatenation. */
  lemma {:induction false} InsertAllConcat(w: WriterState, xs: seq<Value>, ys: seq<Value>)
    requires ValidFormat(w.fmt)
    ensures ValidFormat(InsertAll(w, xs).fmt)
    ensures InsertAll(w, xs + ys) == InsertAll(InsertAll(w, xs), ys)
    decreases |xs|
  {
    if xs == [] {
      assert xs + ys == ys;
    } else {
      assert (xs + ys)[1..] == xs[1..] + ys;
      InsertAllConcat(Insert(w, xs[0]), xs[1..], ys);
    }
  }

  // ----- what a field can contain -----

  /** A character other than the one replaced survives the substitution. */
  lemma {:induction false} SubstCharKeeps(s: string, c: char, e: string, x: char)
    requires x in s && x != c
    ensures x in SubstChar(s, c, e)
    decreases |s|
  {
    if s[0] == x {
      assert SubstChar(s, c, e) == [x] + SubstChar(s[1..], c, e);
    } else {
      assert x in s[1..] by { assert s == [s[0]] + s[1..]; }
      SubstCharKeeps(s[1..], c, e, x);
    }
  }

  /** A character that occurs is found. */
  lemma FindChar(s: string, c: char)
    requires c in s
    ensures Find(s, [c], 0).Some?
  {
    var k :| 0 <= k < |s| && s[k] == c;
    assert OccursAt(s, [c], k);
  }

  /** Escaping one character `c` with `e` is the substitution of `e` for every `c`. */
  lemma EscapeCharIsSubst(s: string, c: char, e: string)
    ensures ReplaceAll(s, [c], e) == SubstChar(s, c, e)
  {
    ReplaceCharIsSubst(s, c, e);
  }

  /**
   * With line feeds escaped by a marker free of line feeds (and a quote
   * escape free of them), no field text contains a line feed: a field never
   * breaks the row.
   */
  lemma EscapeStrHasNoNewline(f: Format, src: string)
    requires ValidFormat(f) && f.newlineEscape != [] && '\n' !in f.newlineEscape
    requires '\n' !in f.quoteEscape && f.surroundQuote != '\n'
    ensures '\n' !in EscapeStr(f, src)
  {
    var s1 := EscapePlain(f, src);
    var s2 := ReplaceAll(s1, "\n", f.newlineEscape);
    EscapeCharIsSubst(s1, '\n', f.newlineEscape);
    if f.surroundQuoteOnStr || Find(s2, f.delimiter, 0).Some? {
      if f.quoteEscape != [] && f.surroundQuote in s2 {
        EscapeCharIsSubst(s2, f.surroundQuote, f.quoteEscape);
      }
    }
  }

  /**
   * With a non-empty escape text that contains no delimiter, and markers
   * without it, the delimiter never appears in a field's text.
   */
  lemma EscapeStrHasNoDelimiter(f: Format, src: string)
    requires ValidFormat(f) && f.escapeStr != []
    requires f.delimiter[0] !in f.escapeStr && f.delimiter[0] !in f.newlineEscape
    requires f.delimiter[0] !in f.quoteEscape && f.delimiter[0] != f.surroundQuote
    ensures f.delimiter[0] !in EscapeStr(f, src)
  {
    var d := f.delimiter[0];
    assert f.delimiter == [d];
    var s1 := EscapePlain(f, src);
    EscapeCharIsSubst(src, d, f.escapeStr);
    var s2 := if f.newlineEscape != [] then ReplaceAll(s1, "\n", f.newlineEscape) else s1;
    if f.newlineEscape != [] {
      EscapeCharIsSubst(s1, '\n', f.newlineEscape);
    }
    if f.surroundQuoteOnStr || Find(s2, f.delimiter, 0).Some? {
      if f.quoteEscape != [] && f.surroundQuote in s2 {
        EscapeCharIsSubst(s2, f.surroundQuote, f.quoteEscape);
      }
    }
  }

  /** `escape_and_output` with a non-empty escape text free of the delimiter leaves no delimiter. */
  lemma EscapePlainHasNoDelimiter(f: Format, src: string)
    requires ValidFormat(f) && f.escapeStr != [] && f.delimiter[0] !in f.escapeStr
    ensures f.delimiter[0] !in EscapePlain(f, src)
  {
    assert f.delimiter == [f.delimiter[0]];
    EscapeCharIsSubst(src, f.delimiter[0], f.escapeStr);
  }

  /**
   * Without an escape text, a text that holds the delimiter is enclosed in
   * quotes automatically.
   */
  lemma EscapeStrQuotesDelimiter(f: Format, src: string)
    requires ValidFormat(f) && f.escapeStr == [] && f.delimiter[0] in src && f.delimiter[0] != '\n'
    ensures var t := EscapeStr(f, src);
      |t| >= 2 && t[0] == f.surroundQuote && t[|t| - 1] == f.surroundQuote
  {
    var d := f.delimiter[0];
    assert f.delimiter == [d];
    var s2 := if f.newlineEscape != [] then ReplaceAll(src, "\n", f.newlineEscape) else src;
    if f.newlineEscape != [] {
      EscapeCharIsSubst(src, '\n', f.newlineEscape);
      SubstCharKeeps(src, '\n', f.newlineEscape, d);
    }
    FindChar(s2, d);
  }

  /** Without quoting, a `std::string` field is written as the escaped text alone. */
  lemma EscapeStrUnquoted(f: Format, src: string)
    requires ValidFormat(f) && !f.surroundQuoteOnStr
    requires f.escapeStr != [] && f.delimiter[0] !in f.escapeStr && f.delimiter[0] !in f.newlineEscape
    ensures EscapeStr(f, src) ==
      if f.newlineEscape != [] then ReplaceAll(EscapePlain(f, src), "\n", f.newlineEscape) else EscapePlain(f, src)
  {
    var d := f.delimiter[0];
    assert f.delimiter == [d];
    var s1 := EscapePlain(f, src);
    EscapeCharIsSubst(src, d, f.escapeStr);
    var s2 := if f.newlineEscape != [] then ReplaceAll(s1, "\n", f.newlineEscape) else s1;
    if f.newlineEscape != [] {
      EscapeCharIsSubst(s1, '\n', f.newlineEscape);
    }
  }
}
