# csv_stream in Dafny

A model of the in-memory core of `csv_stream.h`, a header-only C++ library
that reads and writes CSV one line at a time with stream operators. The model
covers these parts:

- **`replace`**, the find/erase/insert substitution that all escaping goes
  through (module `Text`).
- **The line tokenizer of `istream_base`** (module `Tokenizer` as functions,
  class `Reader.IStringStream` as the stateful object):
  - `get_delimited_str` is the quote-aware scanner;
  - `unescape` undoes the delimiter marker, strips one quote pair, then
    undoes the newline and quote markers;
  - `num_of_delimiter` counts delimiters;
  - `get_rest_of_line` and the setters.
- **The line reader of `istringstream`** (module `Lines` as functions, the
  same class as methods): `getline`, `skip_line`, `read_line` with its
  blank-line policy, and `reset`.
- **The formatter of `ostream_base` / `ostringstream`**:
  - module `Formatter` holds the functions: the field escaping and one
    `<<` step per value kind (string, `char`, `NChar`, integer, `sep`, and
    the line feed that ends a row);
  - class `Writer.OStringStream` holds the methods, each proved to perform
    exactly that step.
- **The conversion layer** (module `Conversion`): `str_to_value` for `char`,
  `NChar`, `short`, `unsigned short` and `unsigned char`, and the decimal
  text of integers.
- **The `sep` value** (module `Separator`) and its `>>` and `<<` operators.

Module `RoundTrip` connects the two sides. A row of string fields written
with matching settings is read back by `read_line` as one line, and
extracting its fields gives back the values written. Two modes are covered:

- the default escaping mode, with markers for the delimiter and the line
  feed;
- the quoting mode of `enable_surround_quote_on_str`, where delimiters,
  quotes and line feeds inside values survive. This holds with or without a
  delimiter marker, and with the default markers of both streams.

The model follows the code where it differs from the library's own
description:

- `getline` consumes the character at the cursor even when it is a line
  feed. So a single blank line made of a lone line feed, followed by a
  non-empty line, is not reported. It is absorbed and the next line is
  delivered instead (`Lines.BlankLineFeedAbsorbed`). A line feed at the
  cursor followed by another line feed, or by the end of the input, is read
  as one empty line (`Lines.LoneLineFeedBlank`). So two blank lines in a row
  are reported as one. A blank CR LF line is reported as well
  (`Lines.BlankCrLfReported`). The description says that every blank line
  ends reading when `terminate_on_blank_line` is set. In the code, only the
  lines that `getline` reads as empty do (`Lines.BlankLineTerminates`).
- `skip_line` appends the skipped line to the current line, because
  `getline` does not clear it.
- A `sep` changes the delimiter for good. Nothing restores the previous one.
- `trim_quote_on_str` is stored but never consulted. Quote handling on
  reading is always active, because its guards are commented out.
- `reset` on either stream restores every default except the newline
  marker.

## Model

| member | source | states |
|---|---|---|
| Text.Find | CSVStream/CSVStream/csv_stream.h:362 | `std::string::find`: a result is an occurrence at or after `from`; no occurrence lies before it; `None` means there is none |
| Text.Replace | CSVStream/CSVStream/csv_stream.h:357-373 | the find/erase/insert loop computes `ReplaceAll`: leftmost, non-overlapping replacement that resumes after the inserted text, so it terminates even when the replacement contains the pattern |
| Text.ReplaceStep | CSVStream/CSVStream/csv_stream.h:362-369 | one round of the loop: erasing and inserting at the found occurrence leaves the part already processed unchanged and resumes after the inserted text |
| Text.ReplaceAllSkip | CSVStream/CSVStream/csv_stream.h:362-369 | a stretch with no occurrence is copied unchanged and scanning resumes after it |
| Text.ReplaceAllAbsent | CSVStream/CSVStream/csv_stream.h:357-373 | when the pattern is not found, `replace` leaves the text unchanged |
| Text.ReplaceAllBySelf | CSVStream/CSVStream/csv_stream.h:357-373 | replacing a pattern by itself leaves every text unchanged |
| Text.ReplaceCharIsSubst | CSVStream/CSVStream/csv_stream.h:357-373 | replacing a one-character pattern is substituting a marker for every occurrence of that character |
| Text.ReplaceAllPrefix | CSVStream/CSVStream/csv_stream.h:357-373 | a prefix free of the pattern's first character passes through unchanged |
| Text.ReplaceAllShort | CSVStream/CSVStream/csv_stream.h:357-373 | a text shorter than the pattern is unchanged |
| Text.ReplaceAllSuffix | CSVStream/CSVStream/csv_stream.h:357-373 | a final character that is not in the pattern passes through unchanged |
| Text.ReplaceAllMatchHead | CSVStream/CSVStream/csv_stream.h:362-369 | an occurrence at the start is replaced and scanning resumes after it |
| Text.SubstCharConcat | CSVStream/CSVStream/csv_stream.h:357-373 | substituting a character distributes over concatenation |
| Text.SubstRoundTrip | CSVStream/CSVStream/csv_stream.h:357-373 | replacing a marker back by the character it stands for undoes the substitution, when the marker's first character is not in the original text |
| Text.SubstTwice | CSVStream/CSVStream/csv_stream.h:1414-1417 | escaping the delimiter and then the line feed is one simultaneous substitution, when the delimiter marker holds no line feed |
| Text.Subst2UndoFirst | CSVStream/CSVStream/csv_stream.h:502 | undoing the first marker of a two-marker substitution leaves the second substitution only, when no copy of that marker can start inside the other one |
| Text.SubstThrice | CSVStream/CSVStream/csv_stream.h:1414-1432 | escaping the delimiter, the line feed and then the quote is one simultaneous substitution, when no marker holds a character escaped after it |
| Text.Subst3UndoFirst | CSVStream/CSVStream/csv_stream.h:502 | undoing the first marker of a three-marker substitution leaves the other two substitutions |
| Text.ReplaceAllAfterNoMatch | CSVStream/CSVStream/csv_stream.h:357-373 | a prefix inside which no occurrence of the pattern can start passes through unchanged, whatever follows it |
| Text.SplitJoin | CSVStream/CSVStream/csv_stream.h:423-467 | the pieces between delimiters, joined back with the delimiter, give the line |
| Text.JoinSplit | CSVStream/CSVStream/csv_stream.h:423-467 | pieces free of the delimiter, joined and split again, come back unchanged |
| Text.SplitCount | CSVStream/CSVStream/csv_stream.h:423-467 | a text with n delimiters has n + 1 pieces |
| Text.SplitPiecesFree | CSVStream/CSVStream/csv_stream.h:423-467 | no piece contains the delimiter |
| Text.SplitNoDelimiter | CSVStream/CSVStream/csv_stream.h:423-467 | a text without the delimiter is a single piece |
| Text.SplitAfterPiece | CSVStream/CSVStream/csv_stream.h:423-467 | a piece, a delimiter and a rest split as that piece followed by the rest's pieces |
| Text.JoinAvoids | CSVStream/CSVStream/csv_stream.h:1655-1746 | a character other than the delimiter that no field holds is not in the row |
| Text.NotFound | CSVStream/CSVStream/csv_stream.h:510-515 | a marker whose first character is not in the text is not found |
| Conversion.ParseDecimalString | CSVStream/CSVStream/csv_stream.h:1661 | the decimal text of every integer parses back to its sign and magnitude |
| Conversion.StoiDecimalString | CSVStream/CSVStream/csv_stream.h:256 | `std::stoi` reads back the decimal text of every `int` and rejects every other integer |
| Conversion.StoulDecimalString | CSVStream/CSVStream/csv_stream.h:280 | `std::stoul` reads back the decimal text of every `unsigned long` |
| Conversion.StrToChar | CSVStream/CSVStream/csv_stream.h:299-308 | succeeds exactly on a non-empty token, yields its first character, and leaves `dest` unchanged on failure |
| Conversion.StrToNChar | CSVStream/CSVStream/csv_stream.h:310-333 | succeeds exactly when `stoi` succeeds and the value is in [-128, 127]; `dest` unchanged on failure |
| Conversion.StrToShort | CSVStream/CSVStream/csv_stream.h:251-273 | succeeds exactly when `stoi` succeeds and the value is in the `short` range; `dest` unchanged on failure |
| Conversion.StrToUShortAsWritten | CSVStream/CSVStream/csv_stream.h:275-295 | as written: the `stoul` result is truncated to 32 bits before the range check |
| Conversion.StrToUCharAsWritten | CSVStream/CSVStream/csv_stream.h:335-355 | as written: the `stoul` result is truncated to 32 bits before the range check |
| Conversion.StrToUShort | CSVStream/CSVStream/csv_stream.h:275-295 | succeeds exactly when `stoul` succeeds and the value is at most 65535; `dest` unchanged on failure |
| Conversion.StrToUChar | CSVStream/CSVStream/csv_stream.h:335-355 | succeeds exactly when `stoul` succeeds and the value is at most 255; `dest` unchanged on failure |
| Conversion.NCharRoundTrip | CSVStream/CSVStream/csv_stream.h:1695-1706 | reading an `NChar` back from the decimal text that `<< NChar` writes gives the code in [-128, 127] and fails outside it |
| Conversion.ShortRoundTrip | CSVStream/CSVStream/csv_stream.h:251-273 | a `short` written in decimal is read back; any other integer is rejected |
| Conversion.UShortRoundTrip | CSVStream/CSVStream/csv_stream.h:275-295 | an `unsigned short` written in decimal is read back; larger values are rejected |
| Conversion.UCharRoundTrip | CSVStream/CSVStream/csv_stream.h:335-355 | an `unsigned char` written in decimal is read back; larger values are rejected |
| Conversion.UnsignedAcceptsTwoToThe32 | CSVStream/CSVStream/csv_stream.h:280-281 | the as-written conversions (here and at lines 340-341) accept "4294967296" as 0; the corrected ones reject it |
| Tokenizer.ScanFrom | CSVStream/CSVStream/csv_stream.h:423-467 | the scan of `get_delimited_str`: a scan that is not exhausted ends strictly after the cursor, within the line; an exhausted scan leaves the cursor at the end, or where it was when it was already there |
| Tokenizer.Tokens | CSVStream/CSVStream/csv_stream.h:423-467 | successive extractions from a line yield at least one token |
| Tokenizer.ScanPlain | CSVStream/CSVStream/csv_stream.h:448-461 | on quote-free text, one scan returns the first piece between delimiters and moves the cursor just past that delimiter; it is exhausted exactly when no delimiter is left |
| Tokenizer.TokensOfPlainLine | CSVStream/CSVStream/csv_stream.h:423-467 | on a line with no quote, CR or LF, the extractions return exactly the pieces of the line split at the delimiter |
| Tokenizer.TokenCount | CSVStream/CSVStream/csv_stream.h:423-467 | such a line with n delimiters yields n + 1 tokens |
| Tokenizer.ScanAtEnd | CSVStream/CSVStream/csv_stream.h:430-437 | once the cursor is at or past the end, an extraction returns the empty token and leaves the cursor |
| Tokenizer.ScanSingle | CSVStream/CSVStream/csv_stream.h:448-461 | one character: a quote opens a region only at the start or after a delimiter and closes an open one; a delimiter outside quotes, a CR or a LF ends the token and is skipped; anything else is kept |
| Tokenizer.ScanDoubledQuote | CSVStream/CSVStream/csv_stream.h:442-447 | inside a quoted region, a doubled quote adds one quote and skips both |
| Tokenizer.ScanQuotedChar | CSVStream/CSVStream/csv_stream.h:448-461 | inside a quoted region, a delimiter is kept like any other character |
| Tokenizer.ScanClosingQuote | CSVStream/CSVStream/csv_stream.h:448-461 | the closing quote is kept; the following delimiter ends the token |
| Tokenizer.ScanInsideQuotes | CSVStream/CSVStream/csv_stream.h:442-462 | a quoted body with doubled quotes is returned with its quotes undoubled and its delimiters kept, up to and including the closing quote |
| Tokenizer.ScanQuotedField | CSVStream/CSVStream/csv_stream.h:442-462 | a quoted field that starts the line or follows a delimiter is returned whole, with its enclosing quotes; the cursor moves past the following delimiter |
| Tokenizer.TokensOfQuotedLine | CSVStream/CSVStream/csv_stream.h:423-467 | a line of quoted fields yields each field, quotes undoubled and delimiters inside it kept, and no other token |
| Tokenizer.LoneQuoteUnescapesToEmpty | CSVStream/CSVStream/csv_stream.h:505-508 | a token made of one quote character unescapes to the empty string |
| Tokenizer.ParityWithoutQuotes | CSVStream/CSVStream/csv_stream.h:530-534 | without quote characters the count never enters a quoted region |
| Tokenizer.CountWithoutQuotes | CSVStream/CSVStream/csv_stream.h:522-544 | on a quote-free line `num_of_delimiter` counts every delimiter |
| Tokenizer.CountMatchesTokens | CSVStream/CSVStream/csv_stream.h:522-544 | on a line with no quote, CR or LF, `num_of_delimiter` + 1 is the number of tokens the line yields |
| Lines.LineEnd | CSVStream/CSVStream/csv_stream.h:1162-1179 | the line that starts at the cursor ends at the first line feed after it, or at the end of the input |
| Lines.StripCrLf | CSVStream/CSVStream/csv_stream.h:1168 | the text kept holds no CR or LF and only characters of the line; a line without them is kept whole |
| Lines.NextLine | CSVStream/CSVStream/csv_stream.h:1162-1179 | `getline` at the end reads nothing and keeps the cursor; otherwise it strictly advances the cursor, at most to one past the end |
| Lines.LineStep | CSVStream/CSVStream/csv_stream.h:1166-1176 | one round of `getline`'s loop: the character is kept unless it is CR or LF, and the loop stops before a line feed or at the end |
| Lines.ReadLineSpec | CSVStream/CSVStream/csv_stream.h:1185-1206 | `read_line`: on failure the line is empty; with blank lines disallowed a delivered line is non-empty; the cursor strictly advances; at the end nothing is read |
| Lines.ReadLineRound | CSVStream/CSVStream/csv_stream.h:1188-1203 | one round of `read_line`'s loop: the line read decides between stopping, delivering and reading on |
| Lines.ReadLineNoCrLf | CSVStream/CSVStream/csv_stream.h:1185-1206 | a delivered line holds no CR or LF |
| Lines.LineEndAtNewline | CSVStream/CSVStream/csv_stream.h:1162-1179 | a non-empty line ended by a line feed is delivered as written, and the cursor moves past the line feed |
| Lines.LastLine | CSVStream/CSVStream/csv_stream.h:1162-1179 | a last line without a line feed is delivered whole, and the cursor ends one past the end |
| Lines.LineEndAtCrLf | CSVStream/CSVStream/csv_stream.h:1168 | with a CR LF ending, the CR is dropped |
| Lines.BlankLineFeedAbsorbed | CSVStream/CSVStream/csv_stream.h:1166-1176 | a blank line made of a lone line feed is absorbed into the following line |
| Lines.BlankCrLfReported | CSVStream/CSVStream/csv_stream.h:1166-1176 | a blank CR LF line is read as an empty line |
| Lines.StripPrefixNewline | CSVStream/CSVStream/csv_stream.h:1168 | a leading line feed is dropped from the line |
| Lines.SkipsBlankLines | CSVStream/CSVStream/csv_stream.h:1193-1198 | with blank lines neither terminating nor allowed, a blank line is skipped and reading goes on |
| Lines.BlankLineTerminates | CSVStream/CSVStream/csv_stream.h:1193-1196 | with `terminate_on_blank_line` set, every line that `getline` reads as empty ends reading with failure, whatever `allow_blank_line` says |
| Lines.LoneLineFeedBlank | CSVStream/CSVStream/csv_stream.h:1164-1178 | a line feed at the cursor followed by another line feed or by the end of the input reads as an empty line, and the cursor moves two places |
| Lines.DoubleLineFeedTerminates | CSVStream/CSVStream/csv_stream.h:1185-1206 | with `terminate_on_blank_line` set, two line feeds in a row at the cursor end reading with failure |
| Lines.CrLfLineTerminates | CSVStream/CSVStream/csv_stream.h:1185-1206 | with `terminate_on_blank_line` set, a blank CR LF line ends reading with failure |
| Reader.IStringStream.constructor | CSVStream/CSVStream/csv_stream.h:389-403 | the defaults of `istream_base`, then `reset(text)` |
| Reader.IStringStream.Reset | CSVStream/CSVStream/csv_stream.h:1145-1161 | new input at cursor 0, an empty line, the default settings and counters, and the newline marker kept |
| Reader.IStringStream.DefaultSettings | CSVStream/CSVStream/csv_stream.h:1151-1160 | the default delimiter, markers, quote and blank-line flags; the newline marker, input, line and counters unchanged |
| Reader.IStringStream.SetDelimiter | CSVStream/CSVStream/csv_stream.h:414-418 | a one-character delimiter and its marker; nothing else changes |
| Reader.IStringStream.EnableTrimQuoteOnStr | CSVStream/CSVStream/csv_stream.h:472-478 | the flag, the quote and its marker; nothing else changes |
| Reader.IStringStream.SetNewlineUnescape | CSVStream/CSVStream/csv_stream.h:404-407 | the newline marker; nothing else changes |
| Reader.IStringStream.EnableTerminateOnBlankLine | CSVStream/CSVStream/csv_stream.h:549-552 | the blank-line flag; nothing else changes |
| Reader.IStringStream.EnableBlankLine | CSVStream/CSVStream/csv_stream.h:492-495 | the blank-line flag; nothing else changes |
| Reader.IStringStream.Unescape | CSVStream/CSVStream/csv_stream.h:500-520 | the four replacement steps compute `Tokenizer.Unescape` |
| Reader.IStringStream.GetDelimitedStr | CSVStream/CSVStream/csv_stream.h:423-467 | returns the next token unescaped; the cursor moves to where the scan ends; the line is cleared when it ran out; the token count goes up by one; settings unchanged |
| Reader.ScanToken | CSVStream/CSVStream/csv_stream.h:425-462 | the do-while loop computes `Tokenizer.ScanFrom` |
| Reader.IStringStream.GetRestOfLine | CSVStream/CSVStream/csv_stream.h:468-471 | defined exactly when the cursor is within the line, and then it is the rest of the line after the cursor |
| Reader.IStringStream.NumOfDelimiter | CSVStream/CSVStream/csv_stream.h:522-544 | 0 for an empty delimiter, otherwise the delimiters outside quote-toggled regions |
| Reader.IStringStream.Getline | CSVStream/CSVStream/csv_stream.h:1162-1179 | appends `Lines.NextLine`'s text to the line and moves the input cursor to its end |
| Reader.GetlineFrom | CSVStream/CSVStream/csv_stream.h:1164-1178 | `getline`'s do-while loop appends exactly `Lines.NextLine`'s text and stops where it says |
| Reader.IStringStream.SkipLine | CSVStream/CSVStream/csv_stream.h:1180-1184 | one `getline`, then the cursor back to 0 |
| Reader.IStringStream.ReadLine | CSVStream/CSVStream/csv_stream.h:1185-1206 | performs `Lines.ReadLineSpec`; a delivered line resets the cursor and token count and advances the line number |
| Reader.ReadLineFrom | CSVStream/CSVStream/csv_stream.h:1188-1205 | `read_line`'s loop of `getline` calls computes `Lines.ReadLineSpec`: success, the line delivered and the new input cursor |
| Reader.IStringStream.Extract | CSVStream/CSVStream/csv_stream.h:1549-1572 | `>> T`: the conversion of the next token, success or failure as `str_to_value` reports it |
| Reader.IStringStream.ExtractChar | CSVStream/CSVStream/csv_stream.h:1574-1586 | `>> char` fails exactly on an empty token and otherwise yields its first character |
| Reader.IStringStream.ExtractString | CSVStream/CSVStream/csv_stream.h:1588-1593 | `>> std::string` yields the next token and never fails |
| Reader.IStringStream.ExtractSep | CSVStream/CSVStream/csv_stream.h:1595-1600 | `>> sep` sets the delimiter and marker and changes nothing else |
| Formatter.Insert | CSVStream/CSVStream/csv_stream.h:1655-1746 | one `<<`: output only grows; the row-start flag is set exactly by a line feed (or kept by a `sep`); a `sep` writes nothing and changes only the delimiter and its marker |
| Formatter.InsertField | CSVStream/CSVStream/csv_stream.h:1655-1738 | a field writes the delimiter unless it starts the row, then its text, and clears the row-start flag |
| Formatter.InsertAllExtends | CSVStream/CSVStream/csv_stream.h:1408-1440 | any sequence of `<<` only appends to the output |
| Formatter.InsertAllConcat | CSVStream/CSVStream/csv_stream.h:1655-1746 | chained `<<` of two sequences is `<<` of their concatenation |
| Formatter.InsertFieldsAfterFirst | CSVStream/CSVStream/csv_stream.h:1655-1738 | fields after the first of a row are each preceded by the delimiter |
| Formatter.InsertFieldsAtRowStart | CSVStream/CSVStream/csv_stream.h:1655-1738 | fields written at the start of a row add their texts joined by the delimiter |
| Formatter.RowLayout | CSVStream/CSVStream/csv_stream.h:1716-1738 | a row written at the start of a line is its field texts joined by the delimiter, then a line feed: the writer puts no delimiter before the first field or before the line feed |
| Formatter.EscapeCharIsSubst | CSVStream/CSVStream/csv_stream.h:1417-1425 | escaping one character is substituting its marker for it |
| Formatter.EscapeStrHasNoNewline | CSVStream/CSVStream/csv_stream.h:1412-1436 | with a newline marker free of line feeds, a string field never breaks the row |
| Formatter.EscapeStrHasNoDelimiter | CSVStream/CSVStream/csv_stream.h:1412-1436 | with a delimiter marker and other markers free of the delimiter, a string field holds no delimiter |
| Formatter.EscapePlainHasNoDelimiter | CSVStream/CSVStream/csv_stream.h:1408-1411 | `escape_and_output` with such a marker leaves no delimiter |
| Formatter.EscapeStrQuotesDelimiter | CSVStream/CSVStream/csv_stream.h:1414-1432 | with an empty delimiter marker, a value holding the delimiter is enclosed in quotes |
| Formatter.EscapeStrUnquoted | CSVStream/CSVStream/csv_stream.h:1414-1435 | without quoting on and with a delimiter marker, a string is written with its markers substituted and no quotes |
| Writer.OStringStream.constructor | CSVStream/CSVStream/csv_stream.h:778-787 | the defaults of `ostream_base`, then `reset()` |
| Writer.OStringStream.Reset | CSVStream/CSVStream/csv_stream.h:1394-1403 | an empty output at row start with default settings; the newline marker is kept |
| Writer.OStringStream.SetDelimiter | CSVStream/CSVStream/csv_stream.h:802-806 | a one-character delimiter and its marker; nothing else changes |
| Writer.OStringStream.EnableSurroundQuoteOnStr | CSVStream/CSVStream/csv_stream.h:796-801 | the flag, the quote and its marker; nothing else changes |
| Writer.OStringStream.SetNewlineEscape | CSVStream/CSVStream/csv_stream.h:788-791 | the newline marker; nothing else changes |
| Writer.OStringStream.SetAfterNewline | CSVStream/CSVStream/csv_stream.h:811-814 | the row-start flag; nothing else changes |
| Writer.OStringStream.WriteChar | CSVStream/CSVStream/csv_stream.h:1437-1440 | appends one character |
| Writer.OStringStream.EscapeAndOutput | CSVStream/CSVStream/csv_stream.h:1408-1411 | appends `Formatter.EscapePlain` of the text |
| Writer.OStringStream.EscapeStrAndOutput | CSVStream/CSVStream/csv_stream.h:1412-1436 | appends `Formatter.EscapeStr` of the text |
| Writer.EscapedText | CSVStream/CSVStream/csv_stream.h:1414-1432 | the replace steps and quoting compute `Formatter.EscapeStr` |
| Writer.OStringStream.WriteLead | CSVStream/CSVStream/csv_stream.h:1658-1659 | writes the delimiter exactly when the value does not start the row |
| Writer.OStringStream.InsertString | CSVStream/CSVStream/csv_stream.h:1681-1693 | `<< std::string`, and `<< const char*` at lines 1739-1746, perform `Formatter.Insert` of a string |
| Writer.OStringStream.InsertNChar | CSVStream/CSVStream/csv_stream.h:1695-1706 | `<< NChar` performs `Formatter.Insert` of the code's decimal text |
| Writer.OStringStream.InsertNumber | CSVStream/CSVStream/csv_stream.h:1655-1666 | `<< T` for an integer performs `Formatter.Insert` of its decimal text, never quoted |
| Writer.OStringStream.InsertChar | CSVStream/CSVStream/csv_stream.h:1716-1738 | `<< char` performs `Formatter.Insert`: a line feed ends the row, any other character is a field |
| Writer.OStringStream.InsertSep | CSVStream/CSVStream/csv_stream.h:1708-1714 | `<< sep` performs `Formatter.Insert` of a `sep` |
| RoundTrip.EscapedField | CSVStream/CSVStream/csv_stream.h:1412-1436 | without quoting, a string field is its text with the delimiter and line-feed markers substituted |
| RoundTrip.EscapedFieldRoundTrip | CSVStream/CSVStream/csv_stream.h:1412-1436 | `unescape` (lines 500-520) undoes `escape_str_and_output` in the escaping mode |
| RoundTrip.EscapedRowRoundTrip | CSVStream/CSVStream/csv_stream.h:1655-1738 | a written row of strings, other than a row of one empty string (written as a blank line, which `read_line` skips or stops at: `Lines.BlankLineTerminates`), is read back by `read_line` (lines 1185-1206) as one line whose extracted fields are the values written, in order and no more |
| RoundTrip.DefaultRowRoundTrip | CSVStream/CSVStream/csv_stream.h:389-403 | the same, with the same exception for a row of one empty string, with the default settings of `istream_base` here and of `ostream_base` at lines 778-787, for texts without '"', CR, '#' or '&' |
| RoundTrip.QuotedField | CSVStream/CSVStream/csv_stream.h:1412-1436 | with quoting on, a string field is its text with markers for the delimiter (unless that marker is empty), the line feed and the quote, in quotes |
| RoundTrip.QuotedFieldRoundTrip | CSVStream/CSVStream/csv_stream.h:1412-1436 | `unescape` (lines 500-520) undoes `escape_str_and_output` in the quoting mode, with or without a delimiter marker, for every text free of CR and of the markers' first characters |
| RoundTrip.QuotedDelimiterUndone | CSVStream/CSVStream/csv_stream.h:500-508 | the first step of `unescape` turns the delimiter marker back into the delimiter across the whole quoted token, and stripping the quotes leaves only the line-feed and quote markers |
| RoundTrip.QuotedRowRoundTrip | CSVStream/CSVStream/csv_stream.h:1655-1738 | a written row of quoted strings is read back by `read_line` and `get_delimited_str` (lines 423-467) with delimiters, quotes and line feeds inside values intact |
| RoundTrip.DefaultQuotedRowRoundTrip | CSVStream/CSVStream/csv_stream.h:796-801 | `enable_surround_quote_on_str(true, '"')` with every other setting of both streams at its default carries any row whose texts hold no CR, '#' or '&' |
| RoundTrip.OverlappingMarkersGarble | CSVStream/CSVStream/csv_stream.h:500-520 | with a newline marker that can start inside the quote marker ("&n;" inside "x&n;"), `unescape` does not undo `escape_str_and_output`: a written quote reads back as "x" and a line feed |

## Left out

- File-backed streams (`ifstream`, `ofstream`, `icachedfstream`, `ocachedfstream`), UTF-8 BOM detection, the wide-character open overloads and the WIN32 '\r' before a line feed: C stdio I/O and platform plumbing. The tokenizing and formatting they run is the code modelled here; `icachedfstream::getline` and `read_line` are the same code as `istringstream`'s.
- Floating-point conversions (`stod`, `stof`, the Boost Spirit Qi `double_`/`float_` parsers, Google double-conversion) and `std::to_string` of floating-point values: floating point and foreign libraries. Integers are written through `Conversion.DecimalString`.
- Conversion.StrToShort, Conversion.StrToUShortAsWritten, Conversion.StrToUShort, Conversion.ShortRoundTrip and Conversion.UShortRoundTrip: model the build without `USE_BOOST_SPIRIT_QI`. With it defined (csv_stream.h:57-121), the `short` and `unsigned short` overloads are `qi::short_` and `qi::ushort_` parsers from a foreign library, and the `stoi`/`stoul` bodies at lines 251-295 are not compiled. The `char`, `NChar` and `unsigned char` overloads (lines 299-355) are the same in both builds.
- The `str_to_value` overloads for `int`, `unsigned int`, `long long` and `unsigned long long`: plain calls to the standard parsers, with no range layer of their own.
- `std::stoi` and `std::stoul` are modelled as a parser of an optional sign and at least one digit over the whole token. Leading whitespace and trailing text, which the standard functions accept, are not modelled. `unsigned long` is taken to be 64 bits wide, as on LP64 platforms.
- Conversion.NCharRoundTrip and the `NChar` field text: `char` is taken to be signed, as on x86. Where `char` is unsigned, `static_cast<char>(n)` (csv_stream.h:321) stores a negative code as a value above 127. `(int)val.getChar()` (csv_stream.h:1700) then writes that value, and `str_to_value` for `NChar` refuses it.
- `error_line` and the exception it feeds: a conversion failure is the `ok` result of the extraction, and the message text is not modelled.
- `<< const T*` for a number passed by address: it writes what `<< T` writes for the value it points at.
- Reader.IStringStream.SkipLine and Reader.IStringStream.Getline: require the input cursor to be at most the input size; past that, `input_str[input_str_index]` indexes out of range.
- Reader.IStringStream.ReadLine: requires the input cursor to be at most one past the input size, which every sequence of the modelled operations keeps.
- Text.Replace: requires a non-empty pattern; with an empty one the source loop never ends, and every caller guards against it.
- Tokenizer.ScanQuotedField, Tokenizer.TokensOfQuotedLine and RoundTrip.QuotedRowRoundTrip: require the quote not to be '\0', the character a quote at the end of the line is compared with.
- RoundTrip.QuotedRowRoundTrip: requires that no copy of a marker `unescape` undoes earlier can start inside a marker it undoes later (`Text.StartsNoMatch`). The defaults meet this (`RoundTrip.DefaultQuoteMarkers`). Markers that break it do not round-trip in the code either: with quote marker "x&n;" and newline marker "&n;", a written '"' reads back as "x" and a line feed (`RoundTrip.OverlappingMarkersGarble`).
- Writer.OStringStream and Formatter: the delimiter always holds one character, as every assignment in the source gives it. The `size()>0` guard before writing a delimiter is kept in `Lead` but never false.

## Findings

| source | as written | input that shows it | evidently intended | confidence | as-written member | corrected member |
|---|---|---|---|---|---|---|
| CSVStream/CSVStream/csv_stream.h:280-281 | `unsigned int n = std::stoul(src)` (also at lines 340-341) keeps the 64-bit result modulo 2^32 before the range check of `unsigned short` and `unsigned char` | the token "4294967296" converts successfully to 0 | values above the type's maximum are rejected | not executed; holds where `unsigned long` is 64 bits and, for `unsigned short`, without USE_BOOST_SPIRIT_QI | Conversion.StrToUCharAsWritten, Conversion.StrToUShortAsWritten, Conversion.UnsignedAcceptsTwoToThe32 | Conversion.StrToUChar, Conversion.StrToUShort, Conversion.UCharRoundTrip, Conversion.UShortRoundTrip |
