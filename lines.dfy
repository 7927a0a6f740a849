/**
 * Line splitting of `istringstream` (and of `icachedfstream`, whose
 * `getline` and `read_line` are the same code over a file read into memory):
 * where `getline` stops, what it keeps, and which line `read_line` delivers.
 */
module Lines {

  /**
   * Where the line that starts at `idx` ends: the first position after `idx`
   * that holds a line feed or is the end of the input.  The character at
   * `idx` itself is always consumed, even when it is a line feed.
   */
  function LineEnd(input: string, idx: nat): (j: nat)
    requires idx < |input|
    decreases |input| - idx
    ensures idx < j <= |input|
    ensures j == |input| || input[j] == '\n'
    ensures forall k :: idx < k < j ==> input[k] != '\n'
  {
    if idx + 1 == |input| || input[idx + 1] == '\n' then idx + 1 else LineEnd(input, idx + 1)
  }

  /** The text without its carriage returns and line feeds. */
  function StripCrLf(s: string): (t: string)
    ensures forall c :: c in t ==> c in s && c != '\r' && c != '\n'
    ensures (forall i :: 0 <= i < |s| ==> s[i] != '\r' && s[i] != '\n') ==> t == s
  {
    if s == [] then []
    else
      var init := StripCrLf(s[..|s| - 1]);
      if s[|s| - 1] == '\r' || s[|s| - 1] == '\n' then init else init + [s[|s| - 1]]
  }

  /** What one `getline` appends to the current line, and where the input cursor ends. */
  datatype Line = Line(text: string, next: nat)

  /**
   * One `getline` from cursor `idx`.  At the end of the input it reads
   * nothing; otherwise it consumes up to the next line feed, drops every
   * carriage return and line feed, and steps past the line feed -- which,
   * for a last line without one, leaves the cursor one past the end.
   */
  function NextLine(input: string, idx: nat): (l: Line)
    requires idx <= |input|
    ensures idx < |input| ==> idx < l.next <= |input| + 1
    ensures idx == |input| ==> l == Line([], idx)
  {
    if idx == |input| then Line([], idx)
    else
      var j := LineEnd(input, idx);
      Line(StripCrLf(input[idx..j]), j + 1)
  }

  /** One more character of the line that starts at `i0`, and whether the line ends after it. */
  lemma LineStep(input: string, i0: nat, idx: nat)
    requires i0 <= idx < |input| && idx < LineEnd(input, i0)
    ensures StripCrLf(input[i0..idx + 1]) ==
      StripCrLf(input[i0..idx]) + (if input[idx] == '\r' || input[idx] == '\n' then [] else [input[idx]])
    ensures idx + 1 == LineEnd(input, i0) <==> idx + 1 == |input| || input[idx + 1] == '\n'
  {
    assert input[i0..idx + 1][..idx - i0] == input[i0..idx];
  }

  /** The outcome of `read_line`: whether a line was delivered, the line, and the input cursor. */
  datatype ReadResult = ReadResult(ok: bool, line: string, next: nat)

  /**
   * `read_line` from cursor `idx`: take lines until one is not blank; a blank
   * one ends reading when `terminate` is set and is delivered when blank
   * lines are allowed.
   */
  function ReadLineSpec(input: string, idx: nat, terminate: bool, allowBlank: bool): (r: ReadResult)
    requires idx <= |input| + 1
    decreases |input| + 1 - idx
    ensures !r.ok ==> r.line == []
    ensures r.ok && !allowBlank ==> r.line != []
    ensures idx < |input| ==> idx < r.next <= |input| + 1
    ensures idx >= |input| ==> r == ReadResult(false, [], idx)
  {
    if idx >= |input| then ReadResult(false, [], idx)
    else
      var l := NextLine(input, idx);
      if l.text == [] && terminate then ReadResult(false, [], l.next)
      else if l.text == [] && !allowBlank then ReadLineSpec(input, l.next, terminate, allowBlank)
      else ReadResult(true, l.text, l.next)
  }

  /** One round of `read_line`'s loop: the line `getline` reads decides between stopping, delivering and reading on. */
  lemma ReadLineRound(input: string, idx: nat, terminate: bool, allowBlank: bool)
    requires idx < |input|
    ensures var l := NextLine(input, idx);
      ReadLineSpec(input, idx, terminate, allowBlank) ==
        if l.text == [] && terminate then ReadResult(false, [], l.next)
        else if l.text == [] && !allowBlank then ReadLineSpec(input, l.next, terminate, allowBlank)
        else ReadResult(true, l.text, l.next)
  {
  }

  /** A line that `read_line` delivers holds no carriage return or line feed. */
  lemma {:induction false} ReadLineNoCrLf(input: string, idx: nat, terminate: bool, allowBlank: bool)
    requires idx <= |input| + 1
    ensures NoCrLf(ReadLineSpec(input, idx, terminate, allowBlank).line)
    decreases |input| + 1 - idx
  {
    if idx < |input| {
      var l := NextLine(input, idx);
      if l.text == [] && !terminate && !allowBlank {
        ReadLineNoCrLf(input, l.next, terminate, allowBlank);
      } else {
        forall i | 0 <= i < |l.text| ensures l.text[i] != '\r' && l.text[i] != '\n' {
          assert l.text[i] in l.text;
        }
      }
    }
  }

  /** The characters of `s` other than carriage return and line feed. */
  predicate NoCrLf(s: string)
  {
    forall i :: 0 <= i < |s| ==> s[i] != '\r' && s[i] != '\n'
  }

  /** A non-empty line ended by a line feed is returned as written, and the cursor moves past the line feed. */
  lemma LineEndAtNewline(input: string, idx: nat, text: string)
    requires idx + |text| < |input| && text != [] && NoCrLf(text)
    requires input[idx..idx + |text|] == text && input[idx + |text|] == '\n'
    ensures NextLine(input, idx) == Line(text, idx + |text| + 1)
  {
    var j := LineEnd(input, idx);
    assert j == idx + |text|;
  }

  /** A non-empty last line without a line feed is returned whole, leaving the cursor one past the end. */
  lemma LastLine(input: string, idx: nat)
    requires idx < |input| && NoCrLf(input[idx..])
    ensures NextLine(input, idx) == Line(input[idx..], |input| + 1)
  {
    var j := LineEnd(input, idx);
  }

  /** With a CR LF ending, the carriage return is dropped and the line is returned as written. */
  lemma LineEndAtCrLf(input: string, idx: nat, text: string)
    requires idx + |text| + 1 < |input| && NoCrLf(text)
    requires input[idx..idx + |text|] == text && input[idx + |text|] == '\r' && input[idx + |text| + 1] == '\n'
    ensures NextLine(input, idx) == Line(text, idx + |text| + 2)
  {
    var j := LineEnd(input, idx);
    assert j == idx + |text| + 1;
    var raw := input[idx..j];
    assert raw == text + ['\r'];
    assert raw[..|raw| - 1] == text;
  }

  /**
   * A blank line of a lone line feed is not reported: the line feed at the
   * cursor is consumed as part of the following line.
   */
  lemma BlankLineFeedAbsorbed(input: string, idx: nat, text: string)
    requires idx + |text| + 1 < |input| && text != [] && NoCrLf(text)
    requires input[idx] == '\n' && input[idx + 1..idx + 1 + |text|] == text && input[idx + 1 + |text|] == '\n'
    ensures NextLine(input, idx) == Line(text, idx + |text| + 2)
  {
    var j := LineEnd(input, idx);
    assert j == idx + 1 + |text|;
    StripPrefixNewline(text);
    assert input[idx..j] == ['\n'] + text;
  }

  /** A blank CR LF line is reported as an empty line. */
  lemma BlankCrLfReported(input: string, idx: nat)
    requires idx + 1 < |input| && input[idx] == '\r' && input[idx + 1] == '\n'
    ensures NextLine(input, idx) == Line([], idx + 2)
  {
    assert input[idx..idx + 1] == ['\r'];
  }

  lemma {:induction false} StripPrefixNewline(text: string)
    requires NoCrLf(text)
    ensures StripCrLf(['\n'] + text) == text
    decreases |text|
  {
    if text != [] {
      var s := ['\n'] + text;
      assert s[..|s| - 1] == ['\n'] + text[..|text| - 1];
      StripPrefixNewline(text[..|text| - 1]);
      assert text == text[..|text| - 1] + [text[|text| - 1]];
    }
  }

  /**
   * With blank lines neither terminating nor allowed, `read_line` skips
   * blank lines and delivers the next non-blank one.
   */
  lemma SkipsBlankLines(input: string, idx: nat)
    requires idx < |input| && NextLine(input, idx).text == []
    requires NextLine(input, idx).next <= |input| + 1
    ensures ReadLineSpec(input, idx, false, false) == ReadLineSpec(input, NextLine(input, idx).next, false, false)
  {
  }

  /**
   * A line feed at the cursor that is followed by another line feed, or by
   * the end of the input, is read as an empty line.
   */
  lemma LoneLineFeedBlank(input: string, idx: nat)
    requires idx < |input| && input[idx] == '\n'
    requires idx + 1 == |input| || input[idx + 1] == '\n'
    ensures NextLine(input, idx) == Line([], idx + 2)
  {
    assert input[idx..idx + 1] == ['\n'];
  }

  /**
   * With `terminate` set, every line that `getline` reads as empty ends
   * reading without delivering a line, whatever `allow_blank_line` says.
   */
  lemma BlankLineTerminates(input: string, idx: nat, allowBlank: bool)
    requires idx < |input| && NextLine(input, idx).text == []
    ensures ReadLineSpec(input, idx, true, allowBlank) == ReadResult(false, [], NextLine(input, idx).next)
  {
    ReadLineRound(input, idx, true, allowBlank);
  }

  /** Two line feeds in a row at the cursor end reading when `terminate` is set. */
  lemma DoubleLineFeedTerminates(input: string, idx: nat, allowBlank: bool)
    requires idx + 1 < |input| && input[idx] == '\n' && input[idx + 1] == '\n'
    ensures ReadLineSpec(input, idx, true, allowBlank) == ReadResult(false, [], idx + 2)
  {
    LoneLineFeedBlank(input, idx);
    BlankLineTerminates(input, idx, allowBlank);
  }

  /** A blank CR LF line ends reading when `terminate` is set. */
  lemma CrLfLineTerminates(input: string, idx: nat, allowBlank: bool)
    requires idx + 1 < |input| && input[idx] == '\r' && input[idx + 1] == '\n'
    ensures ReadLineSpec(input, idx, true, allowBlank) == ReadResult(false, [], idx + 2)
  {
    BlankCrLfReported(input, idx);
    BlankLineTerminates(input, idx, allowBlank);
  }

  /**
   * A non-empty line without CR or LF, written after any text and ended by a
   * line feed, is what `read_line` delivers from the end of that text, and
   * the cursor ends after the line feed.
   */
  lemma ReadsWrittenLine(prefix: string, row: string, terminate: bool, allowBlank: bool)
    requires row != [] && NoCrLf(row)
    ensures ReadLineSpec(prefix + row + "\n", |prefix|, terminate, allowBlank) ==
      ReadResult(true, row, |prefix| + |row| + 1)
  {
    var input := prefix + row + "\n";
    assert input[|prefix|..|prefix| + |row|] == row;
    assert input[|prefix| + |row|] == '\n';
    LineEndAtNewline(input, |prefix|, row);
    ReadLineRound(input, |prefix|, terminate, allowBlank);
  }
}
