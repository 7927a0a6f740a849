/**
 * `ostringstream` with the members it inherits from `ostream_base`: the
 * output text, whether the next field starts a row, and the escape settings.
 * Each `<<` is proved to perform one step of `Formatter.Insert`.
 */
module Writer {
  import opened Wrappers
  import opened Text
  import opened Conversion
  import opened Separator
  import opened Formatter

  class OStringStream {
    var afterNewline: bool
    var delimiter: string
    var escapeStr: string
    var surroundQuoteOnStr: bool
    var surroundQuote: char
    var quoteEscape: string
    var newlineEscape: string
    var outputStr: string

    /** The delimiter is always a single character. */
    predicate Valid()
      reads this
    {
      |delimiter| == 1
    }

    function Fmt(): Format
      reads this
    {
      Format(delimiter, escapeStr, surroundQuoteOnStr, surroundQuote, quoteEscape, newlineEscape)
    }

    function State(): WriterState
      reads this
    {
      WriterState(afterNewline, Fmt(), outputStr)
    }

    /** `get_text`. */
    function GetText(): string
      reads this
    {
      outputStr
    }

    /** The defaults of `ostream_base`, then `reset()`. */
    constructor()
      ensures Valid()
      ensures State() == WriterState(true, Format(",", "##", false, '"', "&quot;", "&newline;"), [])
    {
      newlineEscape := "&newline;";
      outputStr := [];
      afterNewline := true;
      delimiter := ",";
      escapeStr := "##";
      surroundQuoteOnStr := false;
      surroundQuote := '"';
      quoteEscape := "&quot;";
    }

    /** `reset`: empty output and default settings; the newline marker is kept. */
    method Reset()
      modifies this
      ensures Valid()
      ensures State() == WriterState(true, Format(",", "##", false, '"', "&quot;", old(newlineEscape)), [])
    {
      outputStr := [];
      afterNewline := true;
      delimiter := ",";
      escapeStr := "##";
      surroundQuoteOnStr := false;
      surroundQuote := '"';
      quoteEscape := "&quot;";
    }

    /** `set_delimiter`. */
    method SetDelimiter(d: char, escape: string)
      modifies this
      ensures Valid()
      ensures State() == old(State()).(fmt := old(Fmt()).(delimiter := [d], escapeStr := escape))
    {
      delimiter := [d];
      escapeStr := escape;
    }

    /** `enable_surround_quote_on_str`. */
    method EnableSurroundQuoteOnStr(enable: bool, quote: char, escape: string)
      requires Valid()
      modifies this
      ensures Valid()
      ensures State() == old(State()).(fmt := old(Fmt()).(surroundQuoteOnStr := enable, surroundQuote := quote, quoteEscape := escape))
    {
      surroundQuoteOnStr := enable;
      surroundQuote := quote;
      quoteEscape := escape;
    }

    /** `set_newline_escape`. */
    method SetNewlineEscape(escape: string)
      requires Valid()
      modifies this
      ensures Valid()
      ensures State() == old(State()).(fmt := old(Fmt()).(newlineEscape := escape))
    {
      newlineEscape := escape;
    }

    /** `set_after_newline`. */
    method SetAfterNewline(b: bool)
      requires Valid()
      modifies this
      ensures Valid()
      ensures State() == old(State()).(afterNewline := b)
    {
      afterNewline := b;
    }

    /** `write_char`. */
    method WriteChar(ch: char)
      requires Valid()
      modifies this
      ensures Valid()
      ensures State() == old(State()).(text := old(outputStr) + [ch])
    {
      outputStr := outputStr + [ch];
    }

    /** `escape_and_output`: append the text with the delimiter escaped. */
    method EscapeAndOutput(src: string)
      requires Valid()
      modifies this
      ensures Valid()
      ensures State() == old(State()).(text := old(outputStr) + EscapePlain(old(Fmt()), src))
    {
      var s := src;
      if escapeStr != [] {
        s := Replace(s, delimiter, escapeStr);
      }
      outputStr := outputStr + s;
    }

    /** `escape_str_and_output`: append the text escaped and, when needed, quoted. */
    method EscapeStrAndOutput(src: string)
      requires Valid()
      modifies this
      ensures Valid()
      ensures State() == old(State()).(text := old(outputStr) + EscapeStr(old(Fmt()), src))
    {
      var s := EscapedText(Fmt(), src);
      outputStr := outputStr + s;
    }

    /** The delimiter before a field, unless the field starts a row. */
    method WriteLead()
      requires Valid()
      modifies this
      ensures Valid()
      ensures State() == old(State()).(text := old(outputStr) + Lead(old(State())))
    {
      if !afterNewline && |delimiter| > 0 {
        WriteChar(delimiter[0]);
      }
    }

    /** `<< std::string` (and `<< const char*`). */
    method InsertString(s: string)
      requires Valid()
      modifies this
      ensures Valid()
      ensures State() == Insert(old(State()), Str(s))
    {
      WriteLead();
      EscapeStrAndOutput(s);
      afterNewline := false;
    }

    /** `<< NChar`: the character's code in decimal, escaped as a string. */
    method InsertNChar(code: int)
      requires Valid()
      modifies this
      ensures Valid()
      ensures State() == Insert(old(State()), NChr(code))
    {
      WriteLead();
      EscapeStrAndOutput(DecimalString(code));
      afterNewline := false;
    }

    /** `<< T` for an integer type: its decimal text with the delimiter escaped. */
    method InsertNumber(n: int)
      requires Valid()
      modifies this
      ensures Valid()
      ensures State() == Insert(old(State()), Num(n))
    {
      WriteLead();
      EscapeAndOutput(DecimalString(n));
      afterNewline := false;
    }

    /** `<< char`: a line feed ends the row; any other character is a one-character field. */
    method InsertChar(c: char)
      requires Valid()
      modifies this
      ensures Valid()
      ensures State() == Insert(old(State()), Chr(c))
    {
      if c == '\n' {
        WriteChar('\n');
        afterNewline := true;
      } else {
        WriteLead();
        EscapeStrAndOutput([c]);
        afterNewline := false;
      }
    }

    /** `<< sep`: switch the delimiter and its escape text from here on. */
    method InsertSep(sep: Sep)
      requires Valid()
      modifies this
      ensures Valid()
      ensures State() == Insert(old(State()), Separator(sep))
    {
      SetDelimiter(sep.delimiter, sep.escape);
    }
  }

  /**
   * The text `escape_str_and_output` appends: the delimiter escaped, line
   * feeds escaped, and -- when every string is quoted or the text still holds
   * the delimiter -- the quotes escaped and the whole enclosed in quotes.
   */
  method EscapedText(f: Format, src: string) returns (out: string)
    requires ValidFormat(f)
    ensures out == EscapeStr(f, src)
  {
    var s := src;
    if f.escapeStr != [] {
      s := Replace(s, f.delimiter, f.escapeStr);
    }
    if f.newlineEscape != [] {
      s := Replace(s, "\n", f.newlineEscape);
    }
    assert s == EscapeNewline(f, EscapePlain(f, src));
    if f.surroundQuoteOnStr || Find(s, f.delimiter, 0).Some? {
      var quoted := s;
      if f.quoteEscape != [] && f.surroundQuote in s {
        quoted := Replace(s, [f.surroundQuote], f.quoteEscape);
      }
      out := [f.surroundQuote] + quoted + [f.surroundQuote];
    } else {
      out := s;
    }
  }
}
