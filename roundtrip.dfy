/**
 * What a reader gets back from a row a writer wrote with matching settings.
 * Two modes are covered: the escaping mode of the defaults, where the
 * delimiter and line feeds become markers, and the quoting mode of
 * `enable_surround_quote_on_str`, where every string is enclosed in quotes
 * and only line feeds and quotes become markers.
 */
module RoundTrip {
  import opened Text
  import opened Tokenizer
  import opened Lines
  import opened Formatter

  /** String fields as values for `<<`. */
  function Strs(vs: seq<string>): (ws: seq<Value>)
    ensures |ws| == |vs|
    ensures forall i :: 0 <= i < |vs| ==> ws[i] == Str(vs[i])
  {
    if vs == [] then [] else [Str(vs[0])] + Strs(vs[1..])
  }

  /** What `>> std::string` yields for each raw token. */
  function UnescapeAll(cfg: ReadConfig, ts: seq<string>): (us: seq<string>)
    ensures |us| == |ts|
    ensures forall i :: 0 <= i < |ts| ==> us[i] == Unescape(cfg, ts[i])
  {
    if ts == [] then [] else [Unescape(cfg, ts[0])] + UnescapeAll(cfg, ts[1..])
  }

  // ----- escaping mode -----

  /**
   * Markers that can be undone: both non-empty, free of the delimiter, the
   * quote, CR and LF, and the delimiter marker's first character not in the
   * newline marker.
   */
  predicate EscapeMarkers(d: char, e: string, q: char, n: string)
  {
    e != [] && n != [] &&
    d != q && d != '\r' && d != '\n' &&
    d !in e && d !in n && q !in e && q !in n &&
    '\r' !in e && '\r' !in n && '\n' !in e && '\n' !in n &&
    e[0] !in n
  }

  /** A text the escaping mode carries: no quote, no CR, and no first character of a marker. */
  predicate Escapable(v: string, e: string, q: char, qe: string, n: string)
    requires e != [] && n != []
  {
    q !in v && '\r' !in v && e[0] !in v && n[0] !in v && (qe == [] || qe[0] !in v)
  }

  /** Without quoting, a string field is the text with each delimiter and each line feed replaced by its marker. */
  lemma EscapedField(d: char, e: string, q: char, qe: string, n: string, v: string)
    requires EscapeMarkers(d, e, q, n)
    ensures EscapeStr(Format([d], e, false, q, qe, n), v) == SubstChar(SubstChar(v, d, e), '\n', n)
  {
    var f := Format([d], e, false, q, qe, n);
    EscapeStrUnquoted(f, v);
    EscapeCharIsSubst(v, d, e);
    EscapeCharIsSubst(SubstChar(v, d, e), '\n', n);
  }

  /** `>> std::string` undoes `<< std::string` in the escaping mode. */
  lemma EscapedFieldRoundTrip(d: char, e: string, q: char, qe: string, n: string, v: string)
    requires EscapeMarkers(d, e, q, n) && Escapable(v, e, q, qe, n)
    ensures Unescape(ReadConfig([d], e, q, qe, n), EscapeStr(Format([d], e, false, q, qe, n), v)) == v
  {
    var cfg := ReadConfig([d], e, q, qe, n);
    var t := EscapeStr(Format([d], e, false, q, qe, n), v);
    EscapedField(d, e, q, qe, n, v);
    SubstTwice(v, d, e, '\n', n);
    FirstCharStartsNoMatch(n, e);
    Subst2UndoFirst(v, d, e, '\n', n);
    var u := SubstChar(v, '\n', n);
    assert UnescapeDelimiter(cfg, t) == u;
    assert q !in u;
    if u != [] {
      assert u[0] in u;
    }
    assert StripQuotes(q, u) == u;
    SubstRoundTrip(v, '\n', n);
    UnescapeNewlineIsReplace(cfg, u);
    assert UnescapeNewline(cfg, u) == v;
    if qe != [] {
      NotFound(v, qe);
    }
  }

  /**
   * A row of string fields written at the start of a line in the escaping
   * mode is read back by `read_line` as one line, and extracting its fields
   * as strings gives the values written, in order and no more.
   */
  lemma EscapedRowRoundTrip(w: WriterState, d: char, e: string, q: char, qe: string, n: string,
                            vs: seq<string>, terminate: bool, allowBlank: bool)
    requires w.fmt == Format([d], e, false, q, qe, n) && w.afterNewline
    requires EscapeMarkers(d, e, q, n)
    requires |vs| > 0 && forall i :: 0 <= i < |vs| ==> Escapable(vs[i], e, q, qe, n)
    requires |vs| > 1 || vs[0] != []
    ensures var w2 := InsertAll(w, Strs(vs) + [Chr('\n')]);
      |w.text| < |w2.text| &&
      var r := ReadLineSpec(w2.text, |w.text|, terminate, allowBlank);
      w2.afterNewline && w2.fmt == w.fmt && r.ok && r.next == |w2.text| &&
      UnescapeAll(ReadConfig([d], e, q, qe, n), Tokens(r.line, d, q, 0)) == vs
  {
    var cfg := ReadConfig([d], e, q, qe, n);
    RowLayout(w, Strs(vs));
    var outs := FieldTexts(w.fmt, Strs(vs));
    var row := Join(outs, d);
    EscapedRowFields(d, e, q, qe, n, vs, cfg);
    ReadsWrittenLine(w.text, row, terminate, allowBlank);
    TokensOfPlainLine(row, d, q, 0);
    assert row[0..] == row;
    JoinSplit(outs, d);
  }

  /** The field texts of an escaped row: free of the delimiter, the quote, CR and LF, and each unescaping to its value. */
  lemma EscapedRowFields(d: char, e: string, q: char, qe: string, n: string, vs: seq<string>, cfg: ReadConfig)
    requires EscapeMarkers(d, e, q, n) && cfg == ReadConfig([d], e, q, qe, n)
    requires |vs| > 0 && forall i :: 0 <= i < |vs| ==> Escapable(vs[i], e, q, qe, n)
    requires |vs| > 1 || vs[0] != []
    ensures var outs := FieldTexts(Format([d], e, false, q, qe, n), Strs(vs));
      (forall i :: 0 <= i < |outs| ==> d !in outs[i]) &&
      UnescapeAll(cfg, outs) == vs &&
      Join(outs, d) != [] && NoCrLf(Join(outs, d)) && PlainFrom(Join(outs, d), 0, q)
  {
    var outs := FieldTexts(Format([d], e, false, q, qe, n), Strs(vs));
    FieldTextsAt(Format([d], e, false, q, qe, n), Strs(vs));
    forall i | 0 <= i < |vs|
      ensures d !in outs[i] && q !in outs[i] && '\r' !in outs[i] && '\n' !in outs[i]
      ensures Unescape(cfg, outs[i]) == vs[i]
    {
      EscapedField(d, e, q, qe, n, vs[i]);
      EscapedFieldRoundTrip(d, e, q, qe, n, vs[i]);
    }
    var row := Join(outs, d);
    JoinAvoids(outs, d, q);
    JoinAvoids(outs, d, '\r');
    JoinAvoids(outs, d, '\n');
    if |vs| == 1 {
      EscapedField(d, e, q, qe, n, vs[0]);
      assert SubstChar(vs[0], d, e) != [];
      assert outs[0] != [];
    } else {
      assert row == outs[0] + [d] + Join(outs[1..], d);
    }
    forall i | 0 <= i < |row| ensures row[i] != q && row[i] != '\r' && row[i] != '\n' {
      assert row[i] in row;
    }
    assert UnescapeAll(cfg, outs) == vs;
  }

  /**
   * The defaults of both streams (delimiter ',', delimiter marker "##",
   * quote '"', quote marker "&quot;", newline marker "&newline;") carry any
   * row whose texts hold no '"', CR, '#' or '&'.
   */
  lemma DefaultRowRoundTrip(w: WriterState, vs: seq<string>, terminate: bool, allowBlank: bool)
    requires w.fmt == Format(",", "##", false, '"', "&quot;", "&newline;") && w.afterNewline
    requires |vs| > 0 && (|vs| > 1 || vs[0] != [])
    requires forall i :: 0 <= i < |vs| ==> '"' !in vs[i] && '\r' !in vs[i] && '#' !in vs[i] && '&' !in vs[i]
    ensures var w2 := InsertAll(w, Strs(vs) + [Chr('\n')]);
      |w.text| < |w2.text| &&
      var r := ReadLineSpec(w2.text, |w.text|, terminate, allowBlank);
      r.ok && r.next == |w2.text| &&
      UnescapeAll(ReadConfig(",", "##", '"', "&quot;", "&newline;"), Tokens(r.line, ',', '"', 0)) == vs
  {
    EscapedRowRoundTrip(w, ',', "##", '"', "&quot;", "&newline;", vs, terminate, allowBlank);
  }

  // ----- quoting mode -----

  /**
   * Markers for the quoting mode: the newline and quote markers non-empty,
   * every marker free of the quote, CR and LF, and no copy of a marker that
   * `unescape` undoes earlier can start inside a marker it undoes later
   * (otherwise the earlier step would undo part of the later marker).  The
   * quote is none of the delimiter, CR, LF or '\0', and the delimiter is
   * neither CR nor LF.  The delimiter marker may be empty.
   */
  predicate QuoteMarkers(d: char, e: string, q: char, qe: string, n: string)
  {
    qe != [] && n != [] &&
    q != d && q != '\r' && q != '\n' && q != '\0' &&
    d != '\r' && d != '\n' &&
    q !in qe && q !in n &&
    '\r' !in qe && '\r' !in n && '\n' !in qe && '\n' !in n &&
    StartsNoMatch(qe, n) &&
    (e != [] ==> q !in e && '\r' !in e && '\n' !in e && StartsNoMatch(n, e) && StartsNoMatch(qe, e))
  }

  /** A text the quoting mode carries: no CR and no first character of a marker; quotes and delimiters are fine. */
  predicate Quotable(v: string, e: string, qe: string, n: string)
    requires qe != [] && n != []
  {
    '\r' !in v && qe[0] !in v && n[0] !in v && (e == [] || e[0] !in v)
  }

  /** The text after the delimiter step of `escape_str_and_output`, which an empty marker skips. */
  function DelimiterEscaped(v: string, d: char, e: string): string
  {
    if e == [] then v else SubstChar(v, d, e)
  }

  /**
   * With quoting on, a string field is its text with markers for the
   * delimiter (unless that marker is empty), the line feed and the quote, in
   * quotes.
   */
  lemma QuotedField(d: char, e: string, q: char, qe: string, n: string, v: string)
    requires QuoteMarkers(d, e, q, qe, n)
    ensures EscapeStr(Format([d], e, true, q, qe, n), v) ==
      [q] + SubstChar(SubstChar(DelimiterEscaped(v, d, e), '\n', n), q, qe) + [q]
  {
    if e != [] {
      EscapeCharIsSubst(v, d, e);
    }
    var s1 := DelimiterEscaped(v, d, e);
    var s2 := SubstChar(s1, '\n', n);
    EscapeCharIsSubst(s1, '\n', n);
    if q in s2 {
      EscapeCharIsSubst(s2, q, qe);
    }
  }

  /**
   * The delimiter step of `unescape` on a quoted field: undoing the delimiter
   * marker over the whole token, quotes included, and stripping the quotes
   * leaves the text with only its line-feed and quote markers.
   */
  lemma QuotedDelimiterUndone(d: char, e: string, q: char, qe: string, n: string, v: string)
    requires QuoteMarkers(d, e, q, qe, n) && Quotable(v, e, qe, n)
    ensures var x := SubstChar(SubstChar(DelimiterEscaped(v, d, e), '\n', n), q, qe);
      StripQuotes(q, UnescapeDelimiter(ReadConfig([d], e, q, qe, n), [q] + x + [q])) ==
      SubstChar(SubstChar(v, '\n', n), q, qe)
  {
    var cfg := ReadConfig([d], e, q, qe, n);
    var y := SubstChar(SubstChar(v, '\n', n), q, qe);
    if e == [] {
      StripEnclosingQuotes(cfg, y);
    } else {
      var x := SubstChar(SubstChar(SubstChar(v, d, e), '\n', n), q, qe);
      QuotedMarkerUndone(d, e, q, qe, n, v);
      ReplaceAllEnclosed(x, q, e, [d]);
      var t := [q] + y + [q];
      assert t[1..|t| - 1] == y;
    }
  }

  /** Undoing a non-empty delimiter marker leaves the line-feed and quote markers only. */
  lemma QuotedMarkerUndone(d: char, e: string, q: char, qe: string, n: string, v: string)
    requires e != [] && d != '\n' && d != q && q != '\n'
    requires '\n' !in e && q !in e && q !in n && e[0] !in v
    requires StartsNoMatch(n, e) && StartsNoMatch(qe, e)
    ensures ReplaceAll(SubstChar(SubstChar(SubstChar(v, d, e), '\n', n), q, qe), e, [d]) ==
      SubstChar(SubstChar(v, '\n', n), q, qe)
  {
    SubstThrice(v, d, e, '\n', n, q, qe);
    Subst3UndoFirst(v, d, e, '\n', n, q, qe);
    SubstTwice(v, '\n', n, q, qe);
  }

  /** `>> std::string` undoes `<< std::string` in the quoting mode. */
  lemma QuotedFieldRoundTrip(d: char, e: string, q: char, qe: string, n: string, v: string)
    requires QuoteMarkers(d, e, q, qe, n) && Quotable(v, e, qe, n)
    ensures Unescape(ReadConfig([d], e, q, qe, n), EscapeStr(Format([d], e, true, q, qe, n), v)) == v
  {
    var cfg := ReadConfig([d], e, q, qe, n);
    QuotedField(d, e, q, qe, n, v);
    QuotedDelimiterUndone(d, e, q, qe, n, v);
    var x := SubstChar(SubstChar(v, '\n', n), q, qe);
    SubstTwice(v, '\n', n, q, qe);
    Subst2UndoFirst(v, '\n', n, q, qe);
    UnescapeNewlineIsReplace(cfg, x);
    var y := SubstChar(v, q, qe);
    assert UnescapeNewline(cfg, x) == y;
    SubstRoundTrip(v, q, qe);
    UnescapeQuoteIsReplace(cfg, y);
  }

  /**
   * A row of string fields written at the start of a line in the quoting
   * mode is read back by `read_line` as one line, and extracting its fields
   * as strings gives the values written -- delimiters and quotes inside
   * them included.
   */
  lemma QuotedRowRoundTrip(w: WriterState, d: char, e: string, q: char, qe: string, n: string,
                           vs: seq<string>, terminate: bool, allowBlank: bool)
    requires w.fmt == Format([d], e, true, q, qe, n) && w.afterNewline
    requires QuoteMarkers(d, e, q, qe, n)
    requires |vs| > 0 && forall i :: 0 <= i < |vs| ==> Quotable(vs[i], e, qe, n)
    ensures var w2 := InsertAll(w, Strs(vs) + [Chr('\n')]);
      |w.text| < |w2.text| &&
      var r := ReadLineSpec(w2.text, |w.text|, terminate, allowBlank);
      w2.afterNewline && w2.fmt == w.fmt && r.ok && r.next == |w2.text| &&
      UnescapeAll(ReadConfig([d], e, q, qe, n), Tokens(r.line, d, q, 0)) == vs
  {
    var cfg := ReadConfig([d], e, q, qe, n);
    RowLayout(w, Strs(vs));
    var outs := FieldTexts(w.fmt, Strs(vs));
    var row := Join(outs, d);
    var xs := QuotedRowFields(d, e, q, qe, n, vs, cfg);
    QuotedFieldsAt(xs, q);
    QuotedRowText(outs, d);
    ReadsWrittenLine(w.text, row, terminate, allowBlank);
    assert row[0..] == row;
    TokensOfQuotedLine(row, d, q, 0, xs);
  }

  /** The defaults of both streams are quoting-mode markers, with the default delimiter marker "##" or with none. */
  lemma DefaultQuoteMarkers()
    ensures QuoteMarkers(',', "##", '"', "&quot;", "&newline;")
    ensures QuoteMarkers(',', [], '"', "&quot;", "&newline;")
  {
    var e, qe, n := "##", "&quot;", "&newline;";
    forall k | 0 <= k < |qe| ensures !(n <= qe[k..]) && !(qe[k..] <= n) {
      if k == 0 {
        assert qe[k..][1] != n[1];
      } else {
        assert qe[k..][0] != n[0];
      }
    }
    assert e[0] !in n && e[0] !in qe;
    FirstCharStartsNoMatch(n, e);
    FirstCharStartsNoMatch(qe, e);
  }

  /**
   * `enable_surround_quote_on_str(true, '"')` with every other setting of
   * both streams left at its default (delimiter ',', delimiter marker "##",
   * quote marker "&quot;", newline marker "&newline;") carries any row whose
   * texts hold no CR, '#' or '&' -- commas, quotes and line feeds included.
   */
  lemma DefaultQuotedRowRoundTrip(w: WriterState, vs: seq<string>, terminate: bool, allowBlank: bool)
    requires w.fmt == Format(",", "##", true, '"', "&quot;", "&newline;") && w.afterNewline
    requires |vs| > 0
    requires forall i :: 0 <= i < |vs| ==> '\r' !in vs[i] && '#' !in vs[i] && '&' !in vs[i]
    ensures var w2 := InsertAll(w, Strs(vs) + [Chr('\n')]);
      |w.text| < |w2.text| &&
      var r := ReadLineSpec(w2.text, |w.text|, terminate, allowBlank);
      r.ok && r.next == |w2.text| &&
      UnescapeAll(ReadConfig(",", "##", '"', "&quot;", "&newline;"), Tokens(r.line, ',', '"', 0)) == vs
  {
    DefaultQuoteMarkers();
    QuotedRowRoundTrip(w, ',', "##", '"', "&quot;", "&newline;", vs, terminate, allowBlank);
  }

  /**
   * Markers that break `QuoteMarkers` do not round-trip: with quote marker
   * "x&n;" and newline marker "&n;", the newline step of `unescape` undoes
   * the tail of the quote marker, and a written quote reads back as "x" and
   * a line feed.
   */
  lemma OverlappingMarkersGarble()
    ensures !QuoteMarkers(',', [], '"', "x&n;", "&n;")
    ensures Unescape(ReadConfig(",", [], '"', "x&n;", "&n;"), EscapeStr(Format(",", [], true, '"', "x&n;", "&n;"), "\"")) == "x\n"
  {
    var qe, n := "x&n;", "&n;";
    assert n <= qe[1..];
    QuoteWrittenAsMarker(qe, n);
    assert qe == "x" + n;
    MarkerTailUndone(ReadConfig(",", [], '"', qe, n), "x");
  }

  /**
   * A quote marker that ends with the newline marker: the newline step turns
   * that tail into a line feed, and the quote step then finds no marker.
   */
  lemma MarkerTailUndone(cfg: ReadConfig, p: string)
    requires cfg.unescapeStr == [] && cfg.newlineUnescape != [] && cfg.newlineUnescape[0] !in p
    requires cfg.quoteUnescape == p + cfg.newlineUnescape && |cfg.newlineUnescape| > 1
    ensures Unescape(cfg, [cfg.quote] + cfg.quoteUnescape + [cfg.quote]) == p + "\n"
  {
    var n := cfg.newlineUnescape;
    StripEnclosingQuotes(cfg, cfg.quoteUnescape);
    UnescapeNewlineIsReplace(cfg, cfg.quoteUnescape);
    ReplaceAllPrefix(p, n, n, "\n");
    ReplaceAllMatchHead(n, [], "\n");
    assert n + [] == n;
    assert Find(p + "\n", cfg.quoteUnescape, 0).None?;
  }

  /** With quoting on, a lone quote is written as its marker in quotes. */
  lemma QuoteWrittenAsMarker(qe: string, n: string)
    requires qe != [] && '\n' !in qe && '"' !in qe && n != []
    ensures EscapeStr(Format(",", [], true, '"', qe, n), "\"") == "\"" + qe + "\""
  {
    EscapeCharIsSubst("\"", '\n', n);
    assert SubstChar("\"", '\n', n) == "\"";
    EscapeCharIsSubst("\"", '"', qe);
    assert SubstChar("\"", '"', qe) == qe;
  }

  /** A row of fields without CR or LF, each at least two characters long, is a non-empty line without CR or LF. */
  lemma QuotedRowText(outs: seq<string>, d: char)
    requires |outs| > 0 && d != '\r' && d != '\n'
    requires forall i :: 0 <= i < |outs| ==> |outs[i]| >= 2 && '\r' !in outs[i] && '\n' !in outs[i]
    ensures Join(outs, d) != [] && NoCrLf(Join(outs, d))
  {
    var row := Join(outs, d);
    JoinAvoids(outs, d, '\r');
    JoinAvoids(outs, d, '\n');
    if |outs| > 1 {
      assert row == outs[0] + [d] + Join(outs[1..], d);
    }
    forall i | 0 <= i < |row| ensures row[i] != '\r' && row[i] != '\n' {
      assert row[i] in row;
    }
  }

  /** The texts inside the quotes of a quoted row, and what each field unescapes to. */
  lemma QuotedRowFields(d: char, e: string, q: char, qe: string, n: string, vs: seq<string>, cfg: ReadConfig)
      returns (xs: seq<string>)
    requires QuoteMarkers(d, e, q, qe, n) && cfg == ReadConfig([d], e, q, qe, n)
    requires forall i :: 0 <= i < |vs| ==> Quotable(vs[i], e, qe, n)
    ensures |xs| == |vs|
    ensures FieldTexts(Format([d], e, true, q, qe, n), Strs(vs)) == QuotedFields(xs, q)
    ensures forall i :: 0 <= i < |xs| ==> '\r' !in xs[i] && '\n' !in xs[i]
    ensures forall i :: 0 <= i < |xs| ==> '\r' !in [q] + Doubled(xs[i], q) + [q] && '\n' !in [q] + Doubled(xs[i], q) + [q]
    ensures UnescapeAll(cfg, Enclosed(xs, q)) == vs
  {
    xs := seq(|vs|, i requires 0 <= i < |vs| => SubstChar(SubstChar(DelimiterEscaped(vs[i], d, e), '\n', n), q, qe));
    var f := Format([d], e, true, q, qe, n);
    forall i | 0 <= i < |vs|
      ensures [q] + xs[i] + [q] == [q] + Doubled(xs[i], q) + [q]
      ensures '\r' !in xs[i] && '\n' !in xs[i]
      ensures '\r' !in [q] + Doubled(xs[i], q) + [q] && '\n' !in [q] + Doubled(xs[i], q) + [q]
      ensures FieldText(f, Str(vs[i])) == [q] + Doubled(xs[i], q) + [q]
      ensures Unescape(cfg, [q] + xs[i] + [q]) == vs[i]
    {
      QuotedRowField(d, e, q, qe, n, vs[i], xs[i], cfg);
    }
    QuotedRowTexts(f, vs, xs);
    QuotedRowValues(cfg, vs, xs);
  }

  /** Field texts that are, one by one, the quoted fields of `xs`. */
  lemma QuotedRowTexts(f: Format, vs: seq<string>, xs: seq<string>)
    requires ValidFormat(f) && |xs| == |vs|
    requires forall i :: 0 <= i < |vs| ==> FieldText(f, Str(vs[i])) == [f.surroundQuote] + Doubled(xs[i], f.surroundQuote) + [f.surroundQuote]
    ensures FieldTexts(f, Strs(vs)) == QuotedFields(xs, f.surroundQuote)
  {
    FieldTextsAt(f, Strs(vs));
    QuotedFieldsAt(xs, f.surroundQuote);
  }

  /** Tokens that unescape, one by one, to the values. */
  lemma QuotedRowValues(cfg: ReadConfig, vs: seq<string>, xs: seq<string>)
    requires |xs| == |vs|
    requires forall i :: 0 <= i < |vs| ==> Unescape(cfg, [cfg.quote] + xs[i] + [cfg.quote]) == vs[i]
    ensures UnescapeAll(cfg, Enclosed(xs, cfg.quote)) == vs
  {
    EnclosedAt(xs, cfg.quote);
  }

  /** One field of a quoted row: its text inside the quotes holds no quote, CR or LF, and the field unescapes to its value. */
  lemma QuotedRowField(d: char, e: string, q: char, qe: string, n: string, v: string, x: string, cfg: ReadConfig)
    requires QuoteMarkers(d, e, q, qe, n) && cfg == ReadConfig([d], e, q, qe, n) && Quotable(v, e, qe, n)
    requires x == SubstChar(SubstChar(DelimiterEscaped(v, d, e), '\n', n), q, qe)
    ensures [q] + x + [q] == [q] + Doubled(x, q) + [q]
    ensures '\r' !in x && '\n' !in x
    ensures '\r' !in [q] + Doubled(x, q) + [q] && '\n' !in [q] + Doubled(x, q) + [q]
    ensures FieldText(Format([d], e, true, q, qe, n), Str(v)) == [q] + Doubled(x, q) + [q]
    ensures Unescape(cfg, [q] + x + [q]) == v
  {
    QuotedField(d, e, q, qe, n, v);
    QuotedFieldRoundTrip(d, e, q, qe, n, v);
    assert q !in x;
  }
}
