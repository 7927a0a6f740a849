/**
 * The read-side tokenizer of `istream_base` (csv_stream.h), as functions:
 * the quote-aware scan that `get_delimited_str` performs, `unescape`, and the
 * quote-toggling count of `num_of_delimiter`.  The class in module Reader
 * runs the loops and is proved against these.
 */
module Tokenizer {
  import opened Wrappers
  import opened Text

  /** The unescape settings of a reader. */
  datatype ReadConfig = ReadConfig(
    delimiter: string,
    unescapeStr: string,
    quote: char,
    quoteUnescape: string,
    newlineUnescape: string)

  /** `delimiter[0]`; for an empty `std::string` that is the terminating '\0'. */
  function DelimChar(delimiter: string): char
  {
    if |delimiter| > 0 then delimiter[0] else '\0'
  }

  /**
   * What one scan produces: the raw token (before unescaping), the cursor
   * afterwards, and whether the scan ran off the end of the line (in which
   * case `get_delimited_str` clears the line).
   */
  datatype Scan = Scan(token: string, next: nat, exhausted: bool)

  /** `trim_quote` opens a quoted region only at the start of the line or right after a delimiter. */
  predicate OpensQuote(s: string, pos: nat, d: char, q: char)
    requires pos < |s|
  {
    s[pos] == q && (pos == 0 || s[pos - 1] == d)
  }

  /** `s[i]` of a `std::string`, where reading at the size gives the terminating '\0'. */
  function CharAt(s: string, i: nat): char
  {
    if i < |s| then s[i] else '\0'
  }

  /**
   * The do-while loop of `get_delimited_str`, from cursor `pos` with quote
   * state `inQuote`.  Inside a quoted region a doubled quote contributes one
   * quote character and a delimiter does not end the token; a CR or LF ends
   * it everywhere.  A quote in the last position is compared with the '\0'
   * after it, so with a '\0' quote the cursor can step one past the end.
   */
  function ScanFrom(s: string, pos: nat, d: char, q: char, inQuote: bool): (r: Scan)
    decreases if pos <= |s| then |s| - pos else 0
    ensures !r.exhausted ==> pos < r.next <= |s|
    ensures r.exhausted ==> if pos < |s| then |s| <= r.next <= |s| + 1 else r.next == pos
  {
    if pos >= |s| then Scan([], pos, true)
    else
      var ch := s[pos];
      if inQuote && ch == q && CharAt(s, pos + 1) == q then
        var rest := ScanFrom(s, pos + 2, d, q, inQuote);
        Scan([ch] + rest.token, rest.next, rest.exhausted)
      else
        var quoted :=
          if !inQuote && OpensQuote(s, pos, d, q) then true
          else if inQuote && ch == q then false
          else inQuote;
        if (ch == d && !quoted) || ch == '\r' || ch == '\n' then Scan([], pos + 1, false)
        else
          var rest := ScanFrom(s, pos + 1, d, q, quoted);
          Scan([ch] + rest.token, rest.next, rest.exhausted)
  }

  /** The raw tokens that successive extractions return from `pos` until the line runs out. */
  function Tokens(s: string, d: char, q: char, pos: nat): (ts: seq<string>)
    decreases if pos <= |s| then |s| - pos else 0
    ensures |ts| > 0
  {
    var r := ScanFrom(s, pos, d, q, false);
    if r.exhausted then [r.token] else [r.token] + Tokens(s, d, q, r.next)
  }

  /** `unescape`: delimiter, then one enclosing quote pair, then newline, then quote markers. */
  function Unescape(cfg: ReadConfig, src: string): string
  {
    UnescapeQuote(cfg, UnescapeNewline(cfg, StripQuotes(cfg.quote, UnescapeDelimiter(cfg, src))))
  }

  /** The delimiter marker back to the delimiter, unless the marker is empty. */
  function UnescapeDelimiter(cfg: ReadConfig, s: string): string
  {
    if cfg.unescapeStr == [] then s else ReplaceAll(s, cfg.unescapeStr, cfg.delimiter)
  }

  /**
   * One enclosing pair of quotes removed, as `substr(1, size - 2)` does; for a
   * lone quote the length wraps around and the result is empty.
   */
  function StripQuotes(q: char, s: string): string
  {
    if |s| > 0 && s[0] == q && s[|s| - 1] == q then
      (if |s| == 1 then [] else s[1..|s| - 1])
    else s
  }

  /** The newline marker back to a line feed, when it occurs. */
  function UnescapeNewline(cfg: ReadConfig, s: string): string
  {
    if cfg.newlineUnescape != [] && Find(s, cfg.newlineUnescape, 0).Some? then
      ReplaceAll(s, cfg.newlineUnescape, "\n")
    else s
  }

  /** The quote marker back to the quote character, when it occurs. */
  function UnescapeQuote(cfg: ReadConfig, s: string): string
  {
    if cfg.quoteUnescape != [] && Find(s, cfg.quoteUnescape, 0).Some? then
      ReplaceAll(s, cfg.quoteUnescape, [cfg.quote])
    else s
  }

  /** Whether the scan of `num_of_delimiter` is inside a quoted region after reading `s`. */
  function QuoteParity(s: string, q: char): bool
  {
    if s == [] then false else QuoteParity(s[..|s| - 1], q) != (s[|s| - 1] == q)
  }

  /** The delimiters of `s` that lie outside regions toggled by every quote character. */
  function CountOutside(s: string, d: char, q: char): nat
  {
    if s == [] then 0
    else CountOutside(s[..|s| - 1], d, q) + (if !QuoteParity(s, q) && s[|s| - 1] == d then 1 else 0)
  }

  // ----- the scan on quote-free text -----

  /** From `pos` on, the line holds no quote, CR or LF character. */
  predicate PlainFrom(s: string, pos: nat, q: char)
  {
    forall i :: pos <= i < |s| ==> s[i] != q && s[i] != '\r' && s[i] != '\n'
  }

  /**
   * On quote-free text one scan returns the first piece between delimiters;
   * when a delimiter ends it, the cursor lands where the remaining pieces start.
   */
  lemma {:induction false} ScanPlain(s: string, pos: nat, d: char, q: char)
    requires pos <= |s| && PlainFrom(s, pos, q)
    ensures var r := ScanFrom(s, pos, d, q, false);
      r.token == Split(s[pos..], d)[0] &&
      (r.exhausted <==> |Split(s[pos..], d)| == 1) &&
      (!r.exhausted ==> Split(s[pos..], d) == [r.token] + Split(s[r.next..], d))
    decreases |s| - pos
  {
    if pos < |s| {
      assert s[pos..][1..] == s[pos + 1..];
      if s[pos] != d {
        ScanPlain(s, pos + 1, d, q);
      }
    }
  }

  /**
   * On a line with no quote, CR or LF characters, successive extractions
   * return exactly the pieces of the line between delimiters.
   */
  lemma {:induction false} TokensOfPlainLine(s: string, d: char, q: char, pos: nat)
    requires pos <= |s| && PlainFrom(s, pos, q)
    ensures Tokens(s, d, q, pos) == Split(s[pos..], d)
    decreases |s| - pos
  {
    ScanPlain(s, pos, d, q);
    var r := ScanFrom(s, pos, d, q, false);
    if !r.exhausted {
      TokensOfPlainLine(s, d, q, r.next);
    }
  }

  /** A line with n delimiters and no quote, CR or LF yields n + 1 tokens. */
  lemma TokenCount(s: string, d: char, q: char)
    requires q !in s && '\r' !in s && '\n' !in s
    ensures |Tokens(s, d, q, 0)| == multiset(s)[d] + 1
  {
    assert s[0..] == s;
    assert PlainFrom(s, 0, q) by {
      forall i | 0 <= i < |s| ensures s[i] != q && s[i] != '\r' && s[i] != '\n' {
        assert s[i] in s;
      }
    }
    TokensOfPlainLine(s, d, q, 0);
    SplitCount(s, d);
  }

  /** Once the cursor is at or past the end, the scan returns an empty token and changes nothing. */
  lemma ScanAtEnd(s: string, pos: nat, d: char, q: char, cfg: ReadConfig)
    requires pos >= |s|
    ensures ScanFrom(s, pos, d, q, false) == Scan([], pos, true)
    ensures Unescape(cfg, []) == []
  {
    if cfg.unescapeStr != [] {
      assert ReplaceAll([], cfg.unescapeStr, cfg.delimiter) == [];
    }
  }

  // ----- the scan of a quoted field -----

  /** Every quote character written twice, as section 2, item 7 of RFC 4180 escapes quotes inside a quoted field. */
  function Doubled(x: string, q: char): string
  {
    SubstChar(x, q, [q, q])
  }

  /** The closing quote, then the end of the line or a delimiter. */
  lemma ScanClosingQuote(s: string, pos: nat, d: char, q: char, tail: string)
    requires q != d && q != '\r' && q != '\n' && q != '\0'
    requires pos <= |s| && s[pos..] == [q] + tail
    requires tail == [] || tail[0] == d
    ensures ScanFrom(s, pos, d, q, true) ==
      if tail == [] then Scan([q], |s|, true) else Scan([q], pos + 2, false)
  {
    assert s[pos] == q;
    assert s[pos + 1..] == tail;
    if tail != [] {
      assert s[pos + 1] == d;
    }
  }

  /** Inside a quoted region a doubled quote adds one quote to the token and skips both. */
  lemma ScanDoubledQuote(s: string, pos: nat, d: char, q: char)
    requires pos < |s| && s[pos] == q && CharAt(s, pos + 1) == q
    ensures var rest := ScanFrom(s, pos + 2, d, q, true);
      ScanFrom(s, pos, d, q, true) == Scan([q] + rest.token, rest.next, rest.exhausted)
  {
  }

  /**
   * Any other character first updates the quote state; then a delimiter
   * outside quotes, a CR or a LF ends the token and is skipped, and anything
   * else is kept.
   */
  lemma ScanSingle(s: string, pos: nat, d: char, q: char, inQuote: bool, quoted: bool)
    requires pos < |s| && !(inQuote && s[pos] == q && CharAt(s, pos + 1) == q)
    requires quoted == if !inQuote && OpensQuote(s, pos, d, q) then true
      else if inQuote && s[pos] == q then false
      else inQuote
    ensures (s[pos] == d && !quoted) || s[pos] == '\r' || s[pos] == '\n' ==>
      ScanFrom(s, pos, d, q, inQuote) == Scan([], pos + 1, false)
    ensures !((s[pos] == d && !quoted) || s[pos] == '\r' || s[pos] == '\n') ==>
      var rest := ScanFrom(s, pos + 1, d, q, quoted);
      ScanFrom(s, pos, d, q, inQuote) == Scan([s[pos]] + rest.token, rest.next, rest.exhausted)
  {
  }

  /** Inside a quoted region any character but a quote, CR or LF is kept, delimiters included. */
  lemma ScanQuotedChar(s: string, pos: nat, d: char, q: char)
    requires pos < |s| && s[pos] != q && s[pos] != '\r' && s[pos] != '\n'
    ensures var rest := ScanFrom(s, pos + 1, d, q, true);
      ScanFrom(s, pos, d, q, true) == Scan([s[pos]] + rest.token, rest.next, rest.exhausted)
  {
  }

  /**
   * Inside a quoted region: a doubled-quote body, a closing quote and then a
   * delimiter or the end of the line.  Delimiters in the body do not end the
   * token, each doubled quote gives one quote, and the closing quote is kept.
   */
  lemma {:induction false} ScanInsideQuotes(s: string, pos: nat, d: char, q: char, x: string, tail: string)
    requires q != d && q != '\r' && q != '\n' && q != '\0'
    requires '\r' !in x && '\n' !in x
    requires pos <= |s| && s[pos..] == Doubled(x, q) + [q] + tail
    requires tail == [] || tail[0] == d
    ensures ScanFrom(s, pos, d, q, true).token == x + [q]
    ensures ScanFrom(s, pos, d, q, true).exhausted <==> tail == []
    ensures tail != [] ==> ScanFrom(s, pos, d, q, true).next == pos + |Doubled(x, q)| + 2
    decreases |x|
  {
    if x == [] {
      assert s[pos..] == [q] + tail;
      ScanClosingQuote(s, pos, d, q, tail);
    } else {
      var k := DoubledHead(s, pos, q, x, tail);
      assert '\r' !in x[1..] && '\n' !in x[1..] by {
        forall c | c in x[1..] ensures c in x { }
      }
      ScanInsideQuotes(s, pos + k, d, q, x[1..], tail);
      assert x[0] in x;
      ScanBodyChar(s, pos, d, q, x[0], k);
      assert [x[0]] + (x[1..] + [q]) == x + [q];
    }
  }

  /** One character of a doubled body: a doubled quote gives one quote, anything else but CR or LF is kept. */
  lemma ScanBodyChar(s: string, pos: nat, d: char, q: char, c: char, k: nat)
    requires pos < |s| && pos + k <= |s| && s[pos] == c && c != '\r' && c != '\n'
    requires k == if c == q then 2 else 1
    requires c == q ==> CharAt(s, pos + 1) == q
    ensures var rest := ScanFrom(s, pos + k, d, q, true);
      ScanFrom(s, pos, d, q, true) == Scan([c] + rest.token, rest.next, rest.exhausted)
  {
    if c == q {
      ScanDoubledQuote(s, pos, d, q);
    } else {
      ScanQuotedChar(s, pos, d, q);
    }
  }

  /** The first character of a doubled body takes two positions if it is a quote and one otherwise. */
  lemma DoubledHead(s: string, pos: nat, q: char, x: string, tail: string) returns (k: nat)
    requires pos <= |s| && s[pos..] == Doubled(x, q) + [q] + tail && x != []
    ensures k == if x[0] == q then 2 else 1
    ensures pos + k < |s| && s[pos] == x[0]
    ensures x[0] == q ==> s[pos + 1] == q
    ensures s[pos + k..] == Doubled(x[1..], q) + [q] + tail
    ensures |Doubled(x, q)| == k + |Doubled(x[1..], q)|
  {
    var head := if x[0] == q then [q, q] else [x[0]];
    assert Doubled(x, q) == head + Doubled(x[1..], q);
    assert s[pos..] == head + (Doubled(x[1..], q) + [q] + tail);
    k := |head|;
    assert s[pos + k..] == s[pos..][k..];
  }

  /**
   * A quoted field that starts a line or follows a delimiter is returned with
   * its enclosing quotes, its doubled quotes undoubled and its delimiters kept.
   */
  lemma ScanQuotedField(s: string, pos: nat, d: char, q: char, x: string, tail: string)
    requires q != d && q != '\r' && q != '\n' && q != '\0'
    requires '\r' !in x && '\n' !in x
    requires pos < |s| && s[pos..] == [q] + Doubled(x, q) + [q] + tail
    requires pos == 0 || s[pos - 1] == d
    requires tail == [] || tail[0] == d
    ensures ScanFrom(s, pos, d, q, false).token == [q] + x + [q]
    ensures ScanFrom(s, pos, d, q, false).exhausted <==> tail == []
    ensures tail != [] ==> ScanFrom(s, pos, d, q, false).next == pos + |Doubled(x, q)| + 3
  {
    assert s[pos] == q;
    assert s[pos + 1..] == Doubled(x, q) + [q] + tail;
    ScanInsideQuotes(s, pos + 1, d, q, x, tail);
    ScanSingle(s, pos, d, q, false, true);
    assert [q] + (x + [q]) == [q] + x + [q];
  }

  /** Each text written as a quoted field: enclosed in quotes, with its quotes doubled. */
  function QuotedFields(xs: seq<string>, q: char): (fs: seq<string>)
    ensures |fs| == |xs|
  {
    if xs == [] then [] else [[q] + Doubled(xs[0], q) + [q]] + QuotedFields(xs[1..], q)
  }

  /** Each text enclosed in quotes, as the scan returns a quoted field. */
  function Enclosed(xs: seq<string>, q: char): (ts: seq<string>)
    ensures |ts| == |xs|
  {
    if xs == [] then [] else [[q] + xs[0] + [q]] + Enclosed(xs[1..], q)
  }

  /** The i-th quoted field, position by position. */
  lemma {:induction false} QuotedFieldsAt(xs: seq<string>, q: char)
    ensures forall i :: 0 <= i < |xs| ==> QuotedFields(xs, q)[i] == [q] + Doubled(xs[i], q) + [q]
    decreases |xs|
  {
    if xs != [] {
      QuotedFieldsAt(xs[1..], q);
      var fs := QuotedFields(xs, q);
      assert fs[1..] == QuotedFields(xs[1..], q);
      forall i | 1 <= i < |xs| ensures fs[i] == [q] + Doubled(xs[i], q) + [q] {
        assert fs[i] == fs[1..][i - 1] && xs[i] == xs[1..][i - 1];
      }
    }
  }

  /** The i-th enclosed text, position by position. */
  lemma {:induction false} EnclosedAt(xs: seq<string>, q: char)
    ensures forall i :: 0 <= i < |xs| ==> Enclosed(xs, q)[i] == [q] + xs[i] + [q]
    decreases |xs|
  {
    if xs != [] {
      EnclosedAt(xs[1..], q);
      var ts := Enclosed(xs, q);
      assert ts[1..] == Enclosed(xs[1..], q);
      forall i | 1 <= i < |xs| ensures ts[i] == [q] + xs[i] + [q] {
        assert ts[i] == ts[1..][i - 1] && xs[i] == xs[1..][i - 1];
      }
    }
  }

  /**
   * A line of quoted fields joined by delimiters: successive extractions
   * return each field with its enclosing quotes and its quotes undoubled,
   * delimiters inside the quotes kept, and no token more.
   */
  lemma {:induction false} TokensOfQuotedLine(s: string, d: char, q: char, pos: nat, xs: seq<string>)
    requires q != d && q != '\r' && q != '\n' && q != '\0'
    requires |xs| > 0 && forall i :: 0 <= i < |xs| ==> '\r' !in xs[i] && '\n' !in xs[i]
    requires pos <= |s| && s[pos..] == Join(QuotedFields(xs, q), d)
    requires pos == 0 || s[pos - 1] == d
    ensures Tokens(s, d, q, pos) == Enclosed(xs, q)
    decreases |xs|
  {
    var tail := QuotedLineHead(s, d, q, pos, xs);
    assert '\r' !in xs[0] && '\n' !in xs[0];
    ScanQuotedField(s, pos, d, q, xs[0], tail);
    if |xs| > 1 {
      var piece := [q] + Doubled(xs[0], q) + [q];
      SliceAfterDelimiter(s, pos, piece, d, Join(QuotedFields(xs[1..], q), d));
      var next := ScanFrom(s, pos, d, q, false).next;
      assert next == pos + |piece| + 1;
      assert forall i :: 0 <= i < |xs[1..]| ==> xs[1..][i] == xs[i + 1];
      TokensOfQuotedLine(s, d, q, next, xs[1..]);
      assert Enclosed(xs, q) == [[q] + xs[0] + [q]] + Enclosed(xs[1..], q);
    }
  }

  /** A line of quoted fields: the first field as written, then the rest of the line. */
  lemma QuotedLineHead(s: string, d: char, q: char, pos: nat, xs: seq<string>) returns (tail: string)
    requires |xs| > 0 && pos <= |s| && s[pos..] == Join(QuotedFields(xs, q), d)
    ensures s[pos..] == [q] + Doubled(xs[0], q) + [q] + tail
    ensures |xs| == 1 ==> tail == []
    ensures |xs| > 1 ==> tail == [d] + Join(QuotedFields(xs[1..], q), d)
  {
    var fs := QuotedFields(xs, q);
    assert fs[1..] == QuotedFields(xs[1..], q);
    if |xs| == 1 {
      tail := [];
    } else {
      tail := [d] + Join(fs[1..], d);
    }
  }

  /** What follows a piece and the delimiter after it. */
  lemma SliceAfterDelimiter(s: string, pos: nat, piece: string, d: char, rest: string)
    requires pos <= |s| && s[pos..] == piece + ([d] + rest)
    ensures pos + |piece| < |s| && s[pos + |piece|] == d && s[pos + |piece| + 1..] == rest
  {
    assert s[pos..][|piece|] == d;
    assert s[pos..][|piece| + 1..] == rest;
  }

  /** The find guard before the newline step changes nothing: without a match, replacing is the identity. */
  lemma UnescapeNewlineIsReplace(cfg: ReadConfig, s: string)
    requires cfg.newlineUnescape != []
    ensures UnescapeNewline(cfg, s) == ReplaceAll(s, cfg.newlineUnescape, "\n")
  {
    if Find(s, cfg.newlineUnescape, 0).None? {
      ReplaceAllAbsent(s, cfg.newlineUnescape, "\n");
    }
  }

  /** The find guard before the quote step changes nothing either. */
  lemma UnescapeQuoteIsReplace(cfg: ReadConfig, s: string)
    requires cfg.quoteUnescape != []
    ensures UnescapeQuote(cfg, s) == ReplaceAll(s, cfg.quoteUnescape, [cfg.quote])
  {
    if Find(s, cfg.quoteUnescape, 0).None? {
      ReplaceAllAbsent(s, cfg.quoteUnescape, [cfg.quote]);
    }
  }

  /** Without a delimiter marker, a token in quotes unescapes as its inside does after the quote is stripped. */
  lemma StripEnclosingQuotes(cfg: ReadConfig, x: string)
    requires cfg.unescapeStr == []
    ensures StripQuotes(cfg.quote, UnescapeDelimiter(cfg, [cfg.quote] + x + [cfg.quote])) == x
  {
    var t := [cfg.quote] + x + [cfg.quote];
    assert t[1..|t| - 1] == x;
  }

  /** A token made of a single quote character unescapes to the empty string. */
  lemma LoneQuoteUnescapesToEmpty(cfg: ReadConfig)
    requires cfg.unescapeStr == [] || cfg.unescapeStr[0] != cfg.quote
    ensures Unescape(cfg, [cfg.quote]) == []
  {
    if cfg.unescapeStr != [] {
      ReplaceAllPrefix([cfg.quote], [], cfg.unescapeStr, cfg.delimiter);
      assert [cfg.quote] + [] == [cfg.quote];
      assert ReplaceAll([], cfg.unescapeStr, cfg.delimiter) == [];
    }
  }

  // ----- counting delimiters -----

  /** Without quote characters the scan never enters a quoted region. */
  lemma {:induction false} ParityWithoutQuotes(s: string, q: char)
    requires q !in s
    ensures !QuoteParity(s, q)
    decreases |s|
  {
    if s != [] {
      assert s[|s| - 1] in s;
      assert forall c :: c in s[..|s| - 1] ==> c in s;
      ParityWithoutQuotes(s[..|s| - 1], q);
    }
  }

  /** On a quote-free line `num_of_delimiter` counts every occurrence of the delimiter. */
  lemma {:induction false} CountWithoutQuotes(s: string, d: char, q: char)
    requires q !in s
    ensures CountOutside(s, d, q) == multiset(s)[d]
    decreases |s|
  {
    if s != [] {
      var init := s[..|s| - 1];
      assert forall c :: c in init ==> c in s;
      CountWithoutQuotes(init, d, q);
      ParityWithoutQuotes(s, q);
      assert s == init + [s[|s| - 1]];
      assert multiset(s) == multiset(init) + multiset{s[|s| - 1]};
    }
  }

  /** On a quote-free line the delimiter count is one less than the number of extracted tokens. */
  lemma CountMatchesTokens(s: string, d: char, q: char)
    requires q !in s && '\r' !in s && '\n' !in s
    ensures CountOutside(s, d, q) + 1 == |Tokens(s, d, q, 0)|
  {
    CountWithoutQuotes(s, d, q);
    TokenCount(s, d, q);
  }
}
