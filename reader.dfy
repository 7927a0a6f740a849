/**
 * `istringstream` with the members it inherits from `istream_base`: the
 * current line and cursor, the unescape settings, the counters, and the
 * input text with its cursor.  Each method is proved against the functions
 * of modules Tokenizer and Lines.
 */
module Reader {
  import opened Wrappers
  import opened Text
  import opened Conversion
  import opened Separator
  import opened Tokenizer
  import opened Lines

  /** The settings a reading call leaves alone. */
  datatype Settings = Settings(
    config: ReadConfig,
    trimQuoteOnStr: bool,
    terminateOnBlankLine: bool,
    allowBlankLine: bool)

  class IStringStream {
    /** The current line and the cursor in it. */
    var str: string
    var pos: nat
    var delimiter: string
    var unescapeStr: string
    var trimQuoteOnStr: bool
    var trimQuote: char
    var terminateOnBlankLine: bool
    var quoteUnescape: string
    var newlineUnescape: string
    var lineNum: nat
    var tokenNum: nat
    var allowBlankLine: bool
    /** The whole input and the cursor in it. */
    var inputStr: string
    var inputIndex: nat

    function Config(): ReadConfig
      reads this
    {
      ReadConfig(delimiter, unescapeStr, trimQuote, quoteUnescape, newlineUnescape)
    }

    function CurrentSettings(): Settings
      reads this
    {
      Settings(Config(), trimQuoteOnStr, terminateOnBlankLine, allowBlankLine)
    }

    /** The scan the next extraction performs on the current line. */
    function NextScan(): Scan
      reads this
    {
      ScanFrom(str, pos, DelimChar(delimiter), trimQuote, false)
    }

    /** The token the next extraction returns. */
    function NextToken(): string
      reads this
    {
      Tokenizer.Unescape(Config(), NextScan().token)
    }

    /** The defaults of `istream_base`, then `reset(text)`. */
    constructor(text: string)
      ensures inputStr == text && inputIndex == 0 && str == [] && pos == 0
      ensures Config() == ReadConfig(",", "##", '"', "&quot;", "&newline;")
      ensures !trimQuoteOnStr && terminateOnBlankLine && !allowBlankLine
      ensures lineNum == 0 && tokenNum == 0
    {
      newlineUnescape := "&newline;";
      inputStr := text;
      inputIndex := 0;
      str := [];
      pos := 0;
      delimiter := ",";
      unescapeStr := "##";
      trimQuoteOnStr := false;
      trimQuote := '"';
      terminateOnBlankLine := true;
      quoteUnescape := "&quot;";
      lineNum := 0;
      tokenNum := 0;
      allowBlankLine := false;
    }

    /** `reset(text)`: new input and default settings; the newline marker is kept. */
    method Reset(text: string)
      modifies this
      ensures inputStr == text && inputIndex == 0 && str == [] && pos == 0
      ensures Config() == ReadConfig(",", "##", '"', "&quot;", old(newlineUnescape))
      ensures !trimQuoteOnStr && terminateOnBlankLine && !allowBlankLine
      ensures lineNum == 0 && tokenNum == 0
    {
      inputStr, inputIndex, str, pos := text, 0, [], 0;
      lineNum, tokenNum := 0, 0;
      DefaultSettings();
    }

    /** The settings part of `reset(text)`: the defaults, with the newline marker kept. */
    method DefaultSettings()
      modifies this
      ensures Config() == ReadConfig(",", "##", '"', "&quot;", old(newlineUnescape))
      ensures !trimQuoteOnStr && terminateOnBlankLine && !allowBlankLine
      ensures str == old(str) && pos == old(pos) && inputStr == old(inputStr) && inputIndex == old(inputIndex)
      ensures lineNum == old(lineNum) && tokenNum == old(tokenNum)
    {
      delimiter, unescapeStr, trimQuoteOnStr, trimQuote := ",", "##", false, '"';
      terminateOnBlankLine, quoteUnescape, allowBlankLine := true, "&quot;", false;
    }

    /** `set_delimiter`: a one-character delimiter and the text that stands for it in fields. */
    method SetDelimiter(d: char, unescape: string)
      modifies this
      ensures delimiter == [d] && unescapeStr == unescape
      ensures trimQuote == old(trimQuote) && quoteUnescape == old(quoteUnescape) && newlineUnescape == old(newlineUnescape)
      ensures str == old(str) && pos == old(pos) && inputStr == old(inputStr) && inputIndex == old(inputIndex)
      ensures trimQuoteOnStr == old(trimQuoteOnStr) && terminateOnBlankLine == old(terminateOnBlankLine)
      ensures allowBlankLine == old(allowBlankLine) && lineNum == old(lineNum) && tokenNum == old(tokenNum)
    {
      delimiter := [d];
      unescapeStr := unescape;
    }

    /** `enable_trim_quote_on_str`: the quote character and its marker; the flag is stored but never consulted. */
    method EnableTrimQuoteOnStr(enable: bool, quote: char, unescape: string)
      modifies this
      ensures trimQuoteOnStr == enable && trimQuote == quote && quoteUnescape == unescape
      ensures delimiter == old(delimiter) && unescapeStr == old(unescapeStr) && newlineUnescape == old(newlineUnescape)
      ensures str == old(str) && pos == old(pos) && inputStr == old(inputStr) && inputIndex == old(inputIndex)
      ensures terminateOnBlankLine == old(terminateOnBlankLine) && allowBlankLine == old(allowBlankLine)
      ensures lineNum == old(lineNum) && tokenNum == old(tokenNum)
    {
      trimQuoteOnStr := enable;
      trimQuote := quote;
      quoteUnescape := unescape;
    }

    /** `set_newline_unescape`. */
    method SetNewlineUnescape(unescape: string)
      modifies this
      ensures newlineUnescape == unescape
      ensures delimiter == old(delimiter) && unescapeStr == old(unescapeStr)
      ensures trimQuote == old(trimQuote) && quoteUnescape == old(quoteUnescape)
      ensures str == old(str) && pos == old(pos) && inputStr == old(inputStr) && inputIndex == old(inputIndex)
      ensures trimQuoteOnStr == old(trimQuoteOnStr) && terminateOnBlankLine == old(terminateOnBlankLine)
      ensures allowBlankLine == old(allowBlankLine) && lineNum == old(lineNum) && tokenNum == old(tokenNum)
    {
      newlineUnescape := unescape;
    }

    /** `enable_terminate_on_blank_line`. */
    method EnableTerminateOnBlankLine(enable: bool)
      modifies this
      ensures terminateOnBlankLine == enable
      ensures Config() == old(Config()) && trimQuoteOnStr == old(trimQuoteOnStr) && allowBlankLine == old(allowBlankLine)
      ensures str == old(str) && pos == old(pos) && inputStr == old(inputStr) && inputIndex == old(inputIndex)
      ensures lineNum == old(lineNum) && tokenNum == old(tokenNum)
    {
      terminateOnBlankLine := enable;
    }

    /** `enable_blank_line`. */
    method EnableBlankLine(enable: bool)
      modifies this
      ensures allowBlankLine == enable
      ensures Config() == old(Config()) && trimQuoteOnStr == old(trimQuoteOnStr)
      ensures terminateOnBlankLine == old(terminateOnBlankLine)
      ensures str == old(str) && pos == old(pos) && inputStr == old(inputStr) && inputIndex == old(inputIndex)
      ensures lineNum == old(lineNum) && tokenNum == old(tokenNum)
    {
      allowBlankLine := enable;
    }

    /** `unescape`: the four replacement steps, in order, using `replace`. */
    method Unescape(src: string) returns (out: string)
      ensures out == Tokenizer.Unescape(Config(), src)
    {
      out := src;
      if unescapeStr != [] {
        out := Replace(out, unescapeStr, delimiter);
      }
      assert out == UnescapeDelimiter(Config(), src);
      if |out| > 0 && out[0] == trimQuote && out[|out| - 1] == trimQuote {
        out := if |out| == 1 then [] else out[1..|out| - 1];
      }
      ghost var stripped := out;
      assert stripped == StripQuotes(trimQuote, UnescapeDelimiter(Config(), src));
      if newlineUnescape != [] && Find(out, newlineUnescape, 0).Some? {
        out := Replace(out, newlineUnescape, "\n");
      }
      assert out == UnescapeNewline(Config(), stripped);
      if quoteUnescape != [] && Find(out, quoteUnescape, 0).Some? {
        out := Replace(out, quoteUnescape, [trimQuote]);
      }
    }

    /**
     * `get_delimited_str`: scan the next token from the cursor, honouring
     * quoted regions, and unescape it.  When the line runs out the line is
     * cleared and the cursor kept.
     */
    method GetDelimitedStr() returns (token: string)
      modifies this
      ensures token == old(NextToken())
      ensures pos == old(NextScan()).next
      ensures str == if old(NextScan()).exhausted then [] else old(str)
      ensures tokenNum == old(tokenNum) + 1
      ensures CurrentSettings() == old(CurrentSettings()) && lineNum == old(lineNum)
      ensures inputStr == old(inputStr) && inputIndex == old(inputIndex)
    {
      var raw, next, exhausted := ScanToken(str, pos, DelimChar(delimiter), trimQuote);
      pos := next;
      if exhausted {
        str := [];
      }
      tokenNum := tokenNum + 1;
      token := Unescape(raw);
    }

    /** `get_rest_of_line`: the line from the cursor on; `substr` fails once the cursor is past the end. */
    function GetRestOfLine(): (r: Option<string>)
      reads this
      ensures r.Some? <==> pos <= |str|
      ensures r.Some? ==> str[..pos] + r.value == str
    {
      if pos <= |str| then Some(str[pos..]) else None
    }

    /** `num_of_delimiter`: the delimiters of the line outside quote-toggled regions. */
    method NumOfDelimiter() returns (cnt: nat)
      ensures cnt == if delimiter == [] then 0 else CountOutside(str, delimiter[0], trimQuote)
    {
      if |delimiter| == 0 {
        return 0;
      }
      cnt := 0;
      var insideQuote := false;
      for i := 0 to |str|
        invariant insideQuote == QuoteParity(str[..i], trimQuote)
        invariant cnt == CountOutside(str[..i], delimiter[0], trimQuote)
      {
        assert str[..i + 1][..i] == str[..i];
        if str[i] == trimQuote {
          insideQuote := !insideQuote;
        }
        if !insideQuote {
          if str[i] == delimiter[0] {
            cnt := cnt + 1;
          }
        }
      }
      assert str[..|str|] == str;
    }

    /**
     * `getline`: append the next input line to the current line, without its
     * carriage returns and line feeds, and move the input cursor past it.
     */
    method Getline()
      requires inputIndex <= |inputStr|
      modifies this
      ensures str == old(str) + NextLine(old(inputStr), old(inputIndex)).text
      ensures inputIndex == NextLine(old(inputStr), old(inputIndex)).next
      ensures CurrentSettings() == old(CurrentSettings()) && inputStr == old(inputStr)
      ensures pos == old(pos) && lineNum == old(lineNum) && tokenNum == old(tokenNum)
    {
      str, inputIndex := GetlineFrom(inputStr, inputIndex, str);
    }

    /** `skip_line`: one `getline` (which appends to the current line), then the cursor back to the start. */
    method SkipLine()
      requires inputIndex <= |inputStr|
      modifies this
      ensures str == old(str) + NextLine(old(inputStr), old(inputIndex)).text
      ensures inputIndex == NextLine(old(inputStr), old(inputIndex)).next && pos == 0
      ensures CurrentSettings() == old(CurrentSettings()) && inputStr == old(inputStr)
      ensures lineNum == old(lineNum) && tokenNum == old(tokenNum)
    {
      Getline();
      pos := 0;
    }

    /**
     * `read_line`: clear the line and read input lines until one is
     * delivered or a blank line ends reading; a delivered line counts as the
     * next line number and restarts the token count.
     */
    method ReadLine() returns (ok: bool)
      requires inputIndex <= |inputStr| + 1
      modifies this
      ensures var r := ReadLineSpec(old(inputStr), old(inputIndex), old(terminateOnBlankLine), old(allowBlankLine));
        ok == r.ok && str == r.line && inputIndex == r.next
      ensures pos == if old(inputIndex) < |inputStr| then 0 else old(pos)
      ensures lineNum == if ok then old(lineNum) + 1 else old(lineNum)
      ensures tokenNum == if ok then 0 else old(tokenNum)
      ensures CurrentSettings() == old(CurrentSettings()) && inputStr == old(inputStr)
    {
      // every round of the loop sets the cursor to the start of the line
      if inputIndex < |inputStr| {
        pos := 0;
      }
      ok, str, inputIndex := ReadLineFrom(inputStr, inputIndex, terminateOnBlankLine, allowBlankLine);
      if ok {
        lineNum := lineNum + 1;
        tokenNum := 0;
      }
    }

    /** `>> T` for a type converted by `str_to_value`: the next token; on failure the stream reports an error. */
    method Extract<T>(dest: T, convert: (string, T) -> Converted<T>) returns (val: T, ok: bool)
      modifies this
      ensures var c := convert(old(NextToken()), dest); ok == c.ok && val == c.dest
      ensures pos == old(NextScan()).next && str == if old(NextScan()).exhausted then [] else old(str)
      ensures tokenNum == old(tokenNum) + 1 && lineNum == old(lineNum)
      ensures CurrentSettings() == old(CurrentSettings()) && inputStr == old(inputStr) && inputIndex == old(inputIndex)
    {
      var src := GetDelimitedStr();
      var c := convert(src, dest);
      val := c.dest;
      ok := c.ok;
    }

    /** `>> char`: the first character of the next token; an empty token is an error. */
    method ExtractChar(dest: char) returns (val: char, ok: bool)
      modifies this
      ensures ok <==> old(NextToken()) != []
      ensures val == if ok then old(NextToken())[0] else dest
      ensures pos == old(NextScan()).next && str == if old(NextScan()).exhausted then [] else old(str)
      ensures tokenNum == old(tokenNum) + 1 && lineNum == old(lineNum)
      ensures CurrentSettings() == old(CurrentSettings()) && inputStr == old(inputStr) && inputIndex == old(inputIndex)
    {
      var src := GetDelimitedStr();
      if src == [] {
        return dest, false;
      }
      return src[0], true;
    }

    /** `>> std::string`: the next token, never an error. */
    method ExtractString() returns (val: string)
      modifies this
      ensures val == old(NextToken())
      ensures pos == old(NextScan()).next && str == if old(NextScan()).exhausted then [] else old(str)
      ensures tokenNum == old(tokenNum) + 1 && lineNum == old(lineNum)
      ensures CurrentSettings() == old(CurrentSettings()) && inputStr == old(inputStr) && inputIndex == old(inputIndex)
    {
      val := GetDelimitedStr();
    }

    /** `>> sep`: switch the delimiter and its marker, for every later token and line. */
    method ExtractSep(s: Sep)
      modifies this
      ensures delimiter == [s.delimiter] && unescapeStr == s.escape
      ensures trimQuote == old(trimQuote) && quoteUnescape == old(quoteUnescape) && newlineUnescape == old(newlineUnescape)
      ensures str == old(str) && pos == old(pos) && inputStr == old(inputStr) && inputIndex == old(inputIndex)
      ensures trimQuoteOnStr == old(trimQuoteOnStr) && terminateOnBlankLine == old(terminateOnBlankLine)
      ensures allowBlankLine == old(allowBlankLine) && lineNum == old(lineNum) && tokenNum == old(tokenNum)
    {
      SetDelimiter(s.delimiter, s.escape);
    }
  }

  /**
   * The loop of `read_line` on the input from cursor `start`: `getline` into
   * an empty line until a line is delivered or a blank line ends reading.
   */
  method ReadLineFrom(input: string, start: nat, terminate: bool, allowBlank: bool)
      returns (ok: bool, line: string, idx: nat)
    requires start <= |input| + 1
    ensures ReadResult(ok, line, idx) == ReadLineSpec(input, start, terminate, allowBlank)
  {
    idx, line, ok := start, [], false;
    while idx < |input|
      invariant idx <= |input| + 1 && line == []
      invariant ReadLineSpec(input, idx, terminate, allowBlank) == ReadLineSpec(input, start, terminate, allowBlank)
      decreases |input| + 1 - idx
    {
      ReadLineRound(input, idx, terminate, allowBlank);
      line, idx := GetlineFrom(input, idx, line);
      if line == [] {
        if terminate {
          return;
        } else if !allowBlank {
          continue;
        }
      }
      return true, line, idx;
    }
  }

  /**
   * The do-while loop of `getline` on the input from cursor `start`: the
   * line `line0` with the next input line appended, and the new cursor.
   */
  method GetlineFrom(input: string, start: nat, line0: string) returns (line: string, idx: nat)
    requires start <= |input|
    ensures line == line0 + NextLine(input, start).text && idx == NextLine(input, start).next
  {
    idx, line := start, line0;
    ghost var j := if start < |input| then LineEnd(input, start) else start;
    var atEnd := false;
    while true
      invariant start == |input| ==> idx == start && line == line0 && !atEnd
      invariant start < |input| ==> start <= idx < j && line == line0 + StripCrLf(input[start..idx]) && !atEnd
      decreases |input| - idx
    {
      var ch := CharAt(input, idx);
      ghost var before := StripCrLf(input[start..idx]);
      if !(ch == '\r' || ch == '\n') {
        if idx < |input| {
          assert line + [ch] == line0 + (before + [ch]);
          line := line + [ch];
        } else {
          // nothing left to read: the cursor stays where it is
          atEnd := true;
          break;
        }
      }
      LineStep(input, start, idx);
      assert line == line0 + StripCrLf(input[start..idx + 1]);
      idx := idx + 1;
      if !(CharAt(input, idx) != '\n' && idx < |input|) {
        assert idx == j;
        break;
      }
    }
    if !atEnd {
      assert start < |input| && idx == j && line == line0 + StripCrLf(input[start..j]);
      idx := idx + 1;
    }
  }

  /** A character kept by the scan moves from what is left to scan to the token gathered so far. */
  lemma KeepChar(raw: string, ch: char, now: Scan, rest: Scan, target: Scan)
    requires Scan(raw + now.token, now.next, now.exhausted) == target
    requires now == Scan([ch] + rest.token, rest.next, rest.exhausted)
    ensures Scan(raw + [ch] + rest.token, rest.next, rest.exhausted) == target
  {
    assert raw + [ch] + rest.token == raw + ([ch] + rest.token);
  }

  /**
   * The do-while loop of `get_delimited_str` on the current line from cursor
   * `start`: the raw token, where the cursor ends, and whether the line ran out.
   */
  method ScanToken(line: string, start: nat, d: char, q: char) returns (raw: string, p: nat, exhausted: bool)
    ensures Scan(raw, p, exhausted) == ScanFrom(line, start, d, q, false)
  {
    p := start;
    raw := [];
    exhausted := false;
    var withinQuote := false;
    ghost var target := ScanFrom(line, p, d, q, false);
    while true
      invariant var rest := ScanFrom(line, p, d, q, withinQuote);
        Scan(raw + rest.token, rest.next, rest.exhausted) == target
      invariant !exhausted
      decreases if p <= |line| then |line| + 1 - p else 0
    {
      if p >= |line| {
        // the line is used up: the line is cleared and what was gathered is the token
        exhausted := true;
        return;
      }
      var ch := line[p];
      if withinQuote && ch == q && CharAt(line, p + 1) == q {
        ScanDoubledQuote(line, p, d, q);
        KeepChar(raw, ch, ScanFrom(line, p, d, q, true), ScanFrom(line, p + 2, d, q, true), target);
        raw := raw + [ch];
        p := p + 2;
        continue;
      }
      ghost var wasWithinQuote := withinQuote;
      ghost var now := ScanFrom(line, p, d, q, withinQuote);
      if !withinQuote && ch == q && ((p > 0 && line[p - 1] == d) || p == 0) {
        withinQuote := true;
      } else if withinQuote && ch == q {
        withinQuote := false;
      }
      ScanSingle(line, p, d, q, wasWithinQuote, withinQuote);
      p := p + 1;
      if ch == d && !withinQuote {
        break;
      }
      if ch == '\r' || ch == '\n' {
        break;
      }
      KeepChar(raw, ch, now, ScanFrom(line, p, d, q, withinQuote), target);
      raw := raw + [ch];
    }
  }
}
