/**
 * Text substitution: the `replace` helper of csv_stream.h, through which all
 * escaping (write side) and unescaping (read side) goes.
 *
 * `replace(src, to_find, to_replace)` scans `src` left to right; at each
 * leftmost occurrence of `to_find` it erases it, inserts `to_replace` and
 * resumes the search AFTER the inserted text.  `ReplaceAll` is the
 * specification of that loop; `Replace` is the loop itself.
 */
module Text {
  import opened Wrappers

  /** `f` occurs in `s` starting at index `i`. */
  predicate OccursAt(s: string, f: string, i: nat)
  {
    i + |f| <= |s| && s[i..i + |f|] == f
  }

  /** `std::string::find(f, from)`: the leftmost occurrence of `f` at or after `from`. */
  function Find(s: string, f: string, from: nat): (r: Option<nat>)
    decreases |s| - from
    ensures r.Some? ==> from <= r.value && OccursAt(s, f, r.value)
    ensures r.Some? ==> forall i :: from <= i < r.value ==> !OccursAt(s, f, i)
    ensures r.None? ==> forall i :: from <= i ==> !OccursAt(s, f, i)
  {
    if from + |f| > |s| then None
    else if s[from..from + |f|] == f then Some(from)
    else Find(s, f, from + 1)
  }

  /**
   * Leftmost, non-overlapping replacement of every occurrence of `f` by `r`,
   * never re-scanning inserted text.  `f` must be non-empty: with an empty
   * `to_find` the C++ loop finds a match at every position forever.
   */
  function ReplaceAll(s: string, f: string, r: string): string
    requires |f| > 0
    decreases |s|
  {
    if |s| < |f| then s
    else if s[..|f|] == f then r + ReplaceAll(s[|f|..], f, r)
    else [s[0]] + ReplaceAll(s[1..], f, r)
  }

  /** Every occurrence of the character `c` replaced by `e` (reference definition). */
  function SubstChar(s: string, c: char, e: string): (t: string)
    ensures c !in s ==> t == s
    ensures forall x :: x in t ==> (x in s && x != c) || x in e
  {
    if s == [] then []
    else (if s[0] == c then e else [s[0]]) + SubstChar(s[1..], c, e)
  }

  /**
   * `replace` (csv_stream.h): find / erase / insert, resuming after the
   * inserted text.  Terminates for every `r`, even when `r` contains `f`.
   */
  method Replace(src: string, toFind: string, toReplace: string) returns (out: string)
    requires |toFind| > 0
    ensures out == ReplaceAll(src, toFind, toReplace)
  {
    out := src;
    var pos: nat := 0;
    var searching := true;
    while searching
      invariant pos <= |out|
      invariant searching ==> out[..pos] + ReplaceAll(out[pos..], toFind, toReplace) == ReplaceAll(src, toFind, toReplace)
      invariant !searching ==> out == ReplaceAll(src, toFind, toReplace)
      decreases if searching then |out| - pos + 1 else 0
    {
      var found := Find(out, toFind, pos);
      if found.Some? {
        var p := found.value;
        ReplaceStep(out, toFind, toReplace, pos, p);
        // erase `to_find` at p, then insert `to_replace` at p
        out := out[..p] + toReplace + out[p + |toFind|..];
        pos := p + |toReplace|;
      } else {
        ReplaceAllSkip(out, toFind, toReplace, pos, |out|);
        assert out[..pos] + out[pos..] == out;
        searching := false;
      }
    }
  }

  /** One iteration of `Replace`: the match at `p` is the leftmost one at or after `pos`. */
  lemma ReplaceStep(s: string, f: string, r: string, pos: nat, p: nat)
    requires |f| > 0 && pos <= p && OccursAt(s, f, p)
    requires forall i :: pos <= i < p ==> !OccursAt(s, f, i)
    ensures var t := s[..p] + r + s[p + |f|..];
      p + |r| <= |t| &&
      t[..p + |r|] + ReplaceAll(t[p + |r|..], f, r) == s[..pos] + ReplaceAll(s[pos..], f, r)
  {
    ReplaceAllSkip(s, f, r, pos, p);
    ReplaceAllAt(s, f, r, p);
    SpliceParts(s, r, pos, p, |f|, ReplaceAll(s[p + |f|..], f, r));
  }

  /** A match at `p` is replaced and scanning resumes after it. */
  lemma ReplaceAllAt(s: string, f: string, r: string, p: nat)
    requires |f| > 0 && OccursAt(s, f, p)
    ensures ReplaceAll(s[p..], f, r) == r + ReplaceAll(s[p + |f|..], f, r)
  {
    assert s[p..] == f + s[p + |f|..];
    ReplaceAllMatchHead(f, s[p + |f|..], r);
  }

  /** The sequence bookkeeping of one erase-and-insert step. */
  lemma SpliceParts(s: string, r: string, pos: nat, p: nat, k: nat, tail: string)
    requires pos <= p && p + k <= |s|
    ensures var t := s[..p] + r + s[p + k..];
      p + |r| <= |t| && t[p + |r|..] == s[p + k..] &&
      t[..p + |r|] + tail == s[..pos] + (s[pos..p] + (r + tail))
  {
    var t := s[..p] + r + s[p + k..];
    assert t[..p + |r|] == s[..p] + r;
    assert s[..pos] + s[pos..p] == s[..p];
  }

  /** Scanning over a stretch with no occurrence copies it unchanged. */
  lemma {:induction false} ReplaceAllSkip(s: string, f: string, r: string, a: nat, b: nat)
    requires |f| > 0 && a <= b <= |s|
    requires forall i :: a <= i < b ==> !OccursAt(s, f, i)
    ensures ReplaceAll(s[a..], f, r) == s[a..b] + ReplaceAll(s[b..], f, r)
    decreases b - a
  {
    if a < b {
      var t := s[a..];
      if |t| < |f| {
        ReplaceAllShort(t, f, r);
        ReplaceAllShort(s[b..], f, r);
        assert t == s[a..b] + s[b..];
      } else {
        assert !OccursAt(s, f, a);
        assert t[..|f|] == s[a..a + |f|];
        assert t[1..] == s[a + 1..];
        ReplaceAllUnmatched(t, f, r);
        ReplaceAllSkip(s, f, r, a + 1, b);
        assert s[a..b] == [s[a]] + s[a + 1..b];
        ConcatAssoc([s[a]], s[a + 1..b], ReplaceAll(s[b..], f, r));
      }
    }
  }

  /** With no occurrence of `f` at all, replacement is the identity. */
  lemma ReplaceAllAbsent(s: string, f: string, r: string)
    requires |f| > 0 && Find(s, f, 0).None?
    ensures ReplaceAll(s, f, r) == s
  {
    ReplaceAllSkip(s, f, r, 0, |s|);
    assert s[0..] == s;
  }

  /** Inserted text is never re-scanned: replacing `f` by itself changes nothing. */
  lemma {:induction false} ReplaceAllBySelf(s: string, f: string)
    requires |f| > 0
    ensures ReplaceAll(s, f, f) == s
    decreases |s|
  {
    if |s| >= |f| {
      if s[..|f|] == f {
        ReplaceAllBySelf(s[|f|..], f);
        assert s == s[..|f|] + s[|f|..];
      } else {
        ReplaceAllBySelf(s[1..], f);
        assert s == [s[0]] + s[1..];
      }
    }
  }

  /** For a one-character pattern, `replace` is the per-character substitution. */
  lemma {:induction false} ReplaceCharIsSubst(s: string, c: char, e: string)
    ensures ReplaceAll(s, [c], e) == SubstChar(s, c, e)
    decreases |s|
  {
    if s != [] {
      ReplaceCharIsSubst(s[1..], c, e);
      assert (s[..1] == [c]) == (s[0] == c);
    }
  }

  /** A prefix that cannot start a match passes through unchanged. */
  lemma {:induction false} ReplaceAllPrefix(x: string, y: string, f: string, r: string)
    requires |f| > 0 && f[0] !in x
    ensures ReplaceAll(x + y, f, r) == x + ReplaceAll(y, f, r)
    decreases |x|
  {
    if x != [] {
      var s := x + y;
      assert s[0] == x[0];
      assert s[1..] == x[1..] + y;
      ReplaceAllPrefix(x[1..], y, f, r);
      if |s| >= |f| {
        assert s[..|f|][0] != f[0];
        assert s[..|f|] != f;
        assert ReplaceAll(s, f, r) == [x[0]] + ReplaceAll(x[1..] + y, f, r);
        assert x == [x[0]] + x[1..];
      } else {
        ReplaceAllShort(y, f, r);
      }
    } else {
      assert x + y == y;
    }
  }

  /**
   * No occurrence of `f` can start inside `x`, whatever follows `x`: at every
   * position of `x`, the rest of `x` and `f` differ where they overlap.
   */
  predicate StartsNoMatch(x: string, f: string)
  {
    forall k :: 0 <= k < |x| ==> !(f <= x[k..]) && !(x[k..] <= f)
  }

  /** A text free of `f`'s first character cannot start a match. */
  lemma FirstCharStartsNoMatch(x: string, f: string)
    requires |f| > 0 && f[0] !in x
    ensures StartsNoMatch(x, f)
  {
    forall k | 0 <= k < |x| ensures !(f <= x[k..]) && !(x[k..] <= f) {
      assert x[k..][0] == x[k];
    }
  }

  /** A prefix inside which no match can start passes through unchanged. */
  lemma {:induction false} ReplaceAllAfterNoMatch(x: string, y: string, f: string, r: string)
    requires |f| > 0 && StartsNoMatch(x, f)
    ensures ReplaceAll(x + y, f, r) == x + ReplaceAll(y, f, r)
    decreases |x|
  {
    if x == [] {
      assert x + y == y;
    } else if |x + y| < |f| {
      ReplaceAllShort(x + y, f, r);
      ReplaceAllShort(y, f, r);
    } else {
      NoMatchAtHead(x, y, f);
      ReplaceAllUnmatched(x + y, f, r);
      assert (x + y)[1..] == x[1..] + y;
      NoMatchAfterHead(x, f);
      ReplaceAllAfterNoMatch(x[1..], y, f, r);
      assert x == [x[0]] + x[1..];
    }
  }

  /** No match starts at the head of a text that begins with such a prefix. */
  lemma NoMatchAtHead(x: string, y: string, f: string)
    requires x != [] && |f| <= |x + y| && StartsNoMatch(x, f)
    ensures (x + y)[..|f|] != f
  {
    assert x[0..] == x;
    if |x| >= |f| {
      assert (x + y)[..|f|] == x[..|f|];
    } else {
      assert (x + y)[..|f|][..|x|] == x;
    }
  }

  /** Dropping the first character keeps the property. */
  lemma NoMatchAfterHead(x: string, f: string)
    requires x != [] && StartsNoMatch(x, f)
    ensures StartsNoMatch(x[1..], f)
  {
    forall k | 0 <= k < |x[1..]| ensures !(f <= x[1..][k..]) && !(x[1..][k..] <= f) {
      assert x[1..][k..] == x[k + 1..];
    }
  }

  /** A head that does not start a match is copied and scanning moves on by one. */
  lemma ReplaceAllUnmatched(s: string, f: string, r: string)
    requires 0 < |f| <= |s| && s[..|f|] != f
    ensures ReplaceAll(s, f, r) == [s[0]] + ReplaceAll(s[1..], f, r)
  {
  }

  /** Text shorter than the pattern is left alone. */
  lemma ReplaceAllShort(s: string, f: string, r: string)
    requires 0 < |f| && |s| < |f|
    ensures ReplaceAll(s, f, r) == s
  {
  }

  /** A final character that the pattern does not contain is kept at the end. */
  lemma {:induction false} ReplaceAllSuffix(y: string, c: char, f: string, r: string)
    requires |f| > 0 && c !in f
    ensures ReplaceAll(y + [c], f, r) == ReplaceAll(y, f, r) + [c]
    decreases |y|
  {
    var s := y + [c];
    if |s| < |f| {
    } else if y == [] {
      assert s[..|f|] == [c];
    } else if |y| < |f| {
      assert s[..|f|][|f| - 1] == c;
      assert s[..|f|] != f;
      assert s[1..] == y[1..] + [c];
      ReplaceAllSuffix(y[1..], c, f, r);
      ReplaceAllShort(y[1..], f, r);
      assert y == [y[0]] + y[1..];
    } else {
      assert s[..|f|] == y[..|f|];
      if y[..|f|] == f {
        assert s[|f|..] == y[|f|..] + [c];
        ReplaceAllSuffix(y[|f|..], c, f, r);
      } else {
        assert s[1..] == y[1..] + [c];
        ReplaceAllSuffix(y[1..], c, f, r);
      }
    }
  }

  /** Concatenation is associative. */
  lemma ConcatAssoc(a: string, b: string, c: string)
    ensures a + (b + c) == (a + b) + c
  {
  }

  /** One step of SubstChar: the head's replacement, then the rest. */
  lemma SubstCharCons(s: string, c: char, e: string)
    requires s != []
    ensures SubstChar(s, c, e) == (if s[0] == c then e else [s[0]]) + SubstChar(s[1..], c, e)
  {
  }

  /** One step of SubstChar over a concatenation whose first part is not empty. */
  lemma SubstCharConsConcat(x: string, y: string, c: char, e: string)
    requires x != []
    ensures SubstChar(x + y, c, e) == (if x[0] == c then e else [x[0]]) + SubstChar(x[1..] + y, c, e)
  {
    SubstCharCons(x + y, c, e);
    assert (x + y)[0] == x[0];
    assert (x + y)[1..] == x[1..] + y;
  }

  /** SubstChar distributes over concatenation. */
  lemma {:induction false} SubstCharConcat(x: string, y: string, c: char, e: string)
    ensures SubstChar(x + y, c, e) == SubstChar(x, c, e) + SubstChar(y, c, e)
    decreases |x|
  {
    if x != [] {
      var h := if x[0] == c then e else [x[0]];
      SubstCharConsConcat(x, y, c, e);
      SubstCharConcat(x[1..], y, c, e);
      SubstCharCons(x, c, e);
      ConcatAssoc(h, SubstChar(x[1..], c, e), SubstChar(y, c, e));
    } else {
      assert x + y == y;
    }
  }

  /**
   * Unescaping restores the value: substituting `c` by the marker `e` and then
   * replacing `e` back by `c` gives the original text whenever `e` is non-empty
   * and its first character does not occur in the text.
   */
  lemma {:induction false} SubstRoundTrip(s: string, c: char, e: string)
    requires |e| > 0 && e[0] !in s
    ensures ReplaceAll(SubstChar(s, c, e), e, [c]) == s
    decreases |s|
  {
    if s != [] {
      assert s == [s[0]] + s[1..];
      assert e[0] !in s[1..];
      SubstRoundTrip(s[1..], c, e);
      var rest := SubstChar(s[1..], c, e);
      if s[0] == c {
        assert SubstChar(s, c, e) == e + rest;
        ReplaceAllMatchHead(e, rest, [c]);
      } else {
        assert SubstChar(s, c, e) == [s[0]] + rest;
        ReplaceAllPrefix([s[0]], rest, e, [c]);
      }
    }
  }

  /** Two characters substituted by two markers at once (reference definition). */
  function Subst2(s: string, a: char, ea: string, b: char, eb: string): (t: string)
  {
    if s == [] then []
    else (if s[0] == a then ea else if s[0] == b then eb else [s[0]]) + Subst2(s[1..], a, ea, b, eb)
  }

  /** Substituting `a` and then `b` is the simultaneous substitution when `b` is not in `a`'s marker. */
  lemma {:induction false} SubstTwice(s: string, a: char, ea: string, b: char, eb: string)
    requires a != b && b !in ea
    ensures SubstChar(SubstChar(s, a, ea), b, eb) == Subst2(s, a, ea, b, eb)
    decreases |s|
  {
    if s != [] {
      var head := if s[0] == a then ea else [s[0]];
      SubstCharConcat(head, SubstChar(s[1..], a, ea), b, eb);
      SubstTwice(s[1..], a, ea, b, eb);
    }
  }

  /**
   * Undoing the first of two substitutions: replacing `a`'s marker back by `a`
   * leaves exactly the second substitution, when the text does not contain
   * the first character of `a`'s marker and no copy of `a`'s marker can
   * start inside `b`'s marker.
   */
  lemma {:induction false} Subst2UndoFirst(s: string, a: char, ea: string, b: char, eb: string)
    requires a != b && |ea| > 0 && ea[0] !in s && StartsNoMatch(eb, ea)
    ensures ReplaceAll(Subst2(s, a, ea, b, eb), ea, [a]) == SubstChar(s, b, eb)
    decreases |s|
  {
    if s != [] {
      Subst2UndoFirst(s[1..], a, ea, b, eb);
      var rest := Subst2(s[1..], a, ea, b, eb);
      var undone := SubstChar(s[1..], b, eb);
      if s[0] == a {
        assert Subst2(s, a, ea, b, eb) == ea + rest;
        ReplaceAllMatchHead(ea, rest, [a]);
        assert SubstChar(s, b, eb) == [a] + undone;
      } else if s[0] == b {
        assert Subst2(s, a, ea, b, eb) == eb + rest;
        ReplaceAllAfterNoMatch(eb, rest, ea, [a]);
        assert SubstChar(s, b, eb) == eb + undone;
      } else {
        assert Subst2(s, a, ea, b, eb) == [s[0]] + rest;
        ReplaceAllPrefix([s[0]], rest, ea, [a]);
        assert SubstChar(s, b, eb) == [s[0]] + undone;
      }
    }
  }

  /** Three characters substituted by three markers at once (reference definition). */
  function Subst3(s: string, a: char, ea: string, b: char, eb: string, c: char, ec: string): (t: string)
  {
    if s == [] then []
    else
      var head := if s[0] == a then ea else if s[0] == b then eb else if s[0] == c then ec else [s[0]];
      head + Subst3(s[1..], a, ea, b, eb, c, ec)
  }

  /** Substituting `c` after a two-marker substitution whose markers hold no `c`. */
  lemma {:induction false} SubstAfterSubst2(s: string, a: char, ea: string, b: char, eb: string, c: char, ec: string)
    requires a != c && b != c && c !in ea && c !in eb
    ensures SubstChar(Subst2(s, a, ea, b, eb), c, ec) == Subst3(s, a, ea, b, eb, c, ec)
    decreases |s|
  {
    if s != [] {
      var head := if s[0] == a then ea else if s[0] == b then eb else [s[0]];
      SubstCharConcat(head, Subst2(s[1..], a, ea, b, eb), c, ec);
      SubstAfterSubst2(s[1..], a, ea, b, eb, c, ec);
      if s[0] == c {
        assert SubstChar(head, c, ec) == ec + SubstChar([], c, ec);
      }
    }
  }

  /** Substituting `a`, then `b`, then `c` is the simultaneous substitution when no marker holds a later character. */
  lemma SubstThrice(s: string, a: char, ea: string, b: char, eb: string, c: char, ec: string)
    requires a != b && a != c && b != c && b !in ea && c !in ea && c !in eb
    ensures SubstChar(SubstChar(SubstChar(s, a, ea), b, eb), c, ec) == Subst3(s, a, ea, b, eb, c, ec)
  {
    SubstTwice(s, a, ea, b, eb);
    SubstAfterSubst2(s, a, ea, b, eb, c, ec);
  }

  /**
   * Undoing the first of three substitutions leaves the other two, when the
   * text does not contain the first character of `a`'s marker and no copy of
   * that marker can start inside the other two markers.
   */
  lemma {:induction false} Subst3UndoFirst(s: string, a: char, ea: string, b: char, eb: string, c: char, ec: string)
    requires a != b && a != c && |ea| > 0 && ea[0] !in s && StartsNoMatch(eb, ea) && StartsNoMatch(ec, ea)
    ensures ReplaceAll(Subst3(s, a, ea, b, eb, c, ec), ea, [a]) == Subst2(s, b, eb, c, ec)
    decreases |s|
  {
    if s != [] {
      Subst3UndoFirst(s[1..], a, ea, b, eb, c, ec);
      var rest := Subst3(s[1..], a, ea, b, eb, c, ec);
      var undone := Subst2(s[1..], b, eb, c, ec);
      if s[0] == a {
        assert Subst3(s, a, ea, b, eb, c, ec) == ea + rest;
        ReplaceAllMatchHead(ea, rest, [a]);
        assert Subst2(s, b, eb, c, ec) == [a] + undone;
      } else if s[0] == b {
        assert Subst3(s, a, ea, b, eb, c, ec) == eb + rest;
        ReplaceAllAfterNoMatch(eb, rest, ea, [a]);
        assert Subst2(s, b, eb, c, ec) == eb + undone;
      } else if s[0] == c {
        assert Subst3(s, a, ea, b, eb, c, ec) == ec + rest;
        ReplaceAllAfterNoMatch(ec, rest, ea, [a]);
        assert Subst2(s, b, eb, c, ec) == ec + undone;
      } else {
        assert s[0] in s;
        assert Subst3(s, a, ea, b, eb, c, ec) == [s[0]] + rest;
        ReplaceAllPrefix([s[0]], rest, ea, [a]);
        assert Subst2(s, b, eb, c, ec) == [s[0]] + undone;
      }
    }
  }

  /** A text between two copies of a character that is not in the pattern is replaced inside only. */
  lemma ReplaceAllEnclosed(x: string, c: char, f: string, r: string)
    requires |f| > 0 && c !in f
    ensures ReplaceAll([c] + x + [c], f, r) == [c] + ReplaceAll(x, f, r) + [c]
  {
    ReplaceAllPrefix([c], x + [c], f, r);
    ReplaceAllSuffix(x, c, f, r);
    assert [c] + x + [c] == [c] + (x + [c]);
  }

  /** A match at the very start is replaced and scanning resumes after it. */
  lemma ReplaceAllMatchHead(f: string, rest: string, r: string)
    requires |f| > 0
    ensures ReplaceAll(f + rest, f, r) == r + ReplaceAll(rest, f, r)
  {
    assert (f + rest)[..|f|] == f;
    assert (f + rest)[|f|..] == rest;
  }

  /** The pieces of `s` between occurrences of `d`: n occurrences give n + 1 pieces. */
  function Split(s: string, d: char): (ps: seq<string>)
    ensures |ps| > 0
    decreases |s|
  {
    if s == [] then [[]]
    else
      var rest := Split(s[1..], d);
      if s[0] == d then [[]] + rest else [[s[0]] + rest[0]] + rest[1..]
  }

  /** The pieces glued back together with `d` between consecutive ones. */
  function Join(ps: seq<string>, d: char): string
    requires |ps| > 0
  {
    if |ps| == 1 then ps[0] else ps[0] + [d] + Join(ps[1..], d)
  }

  /** Joining the pieces of a split gives the text back. */
  lemma {:induction false} SplitJoin(s: string, d: char)
    ensures Join(Split(s, d), d) == s
    decreases |s|
  {
    if s != [] {
      SplitJoin(s[1..], d);
      var rest := Split(s[1..], d);
      assert s == [s[0]] + s[1..];
      if s[0] != d && |rest| > 1 {
        var ps := [[s[0]] + rest[0]] + rest[1..];
        assert ps[1..] == rest[1..];
        assert Join(rest, d) == rest[0] + [d] + Join(rest[1..], d);
      }
    }
  }

  /** No piece of a split contains the delimiter. */
  lemma {:induction false} SplitPiecesFree(s: string, d: char)
    ensures forall i :: 0 <= i < |Split(s, d)| ==> d !in Split(s, d)[i]
    decreases |s|
  {
    if s != [] {
      SplitPiecesFree(s[1..], d);
      var rest := Split(s[1..], d);
      var ps := Split(s, d);
      forall i | 0 <= i < |ps| ensures d !in ps[i] {
        if s[0] == d {
          if i > 0 { assert ps[i] == rest[i - 1]; }
        } else if i > 0 {
          assert ps[i] == rest[i];
        } else {
          assert ps[0] == [s[0]] + rest[0];
        }
      }
    }
  }

  /** A text with n delimiters splits into n + 1 pieces. */
  lemma {:induction false} SplitCount(s: string, d: char)
    ensures |Split(s, d)| == multiset(s)[d] + 1
    decreases |s|
  {
    if s != [] {
      SplitCount(s[1..], d);
      assert s == [s[0]] + s[1..];
      assert multiset(s) == multiset{s[0]} + multiset(s[1..]);
    }
  }

  /** Joining pieces that contain no `d` and splitting again gives the pieces back. */
  lemma {:induction false} JoinSplit(ps: seq<string>, d: char)
    requires |ps| > 0
    requires forall i :: 0 <= i < |ps| ==> d !in ps[i]
    ensures Split(Join(ps, d), d) == ps
    decreases |ps|
  {
    if |ps| == 1 {
      SplitNoDelimiter(ps[0], d);
    } else {
      JoinSplit(ps[1..], d);
      SplitAfterPiece(ps[0], Join(ps[1..], d), d);
      assert ps == [ps[0]] + ps[1..];
    }
  }

  /** Text without `d` is a single piece. */
  lemma {:induction false} SplitNoDelimiter(x: string, d: char)
    requires d !in x
    ensures Split(x, d) == [x]
    decreases |x|
  {
    if x != [] {
      SplitNoDelimiter(x[1..], d);
      assert x == [x[0]] + x[1..];
    }
  }

  /** A piece without `d`, then `d`, then the rest: the piece comes first, then the rest's pieces. */
  lemma {:induction false} SplitAfterPiece(x: string, y: string, d: char)
    requires d !in x
    ensures Split(x + [d] + y, d) == [x] + Split(y, d)
    decreases |x|
  {
    var s := x + [d] + y;
    if x == [] {
      assert s == [d] + y;
      assert s[1..] == y;
    } else {
      assert s[0] == x[0];
      assert s[1..] == x[1..] + [d] + y;
      SplitAfterPiece(x[1..], y, d);
      assert x == [x[0]] + x[1..];
    }
  }

  /** A character other than `d` that no piece contains is not in the joined text. */
  lemma {:induction false} JoinAvoids(ps: seq<string>, d: char, c: char)
    requires |ps| > 0 && c != d
    requires forall i :: 0 <= i < |ps| ==> c !in ps[i]
    ensures c !in Join(ps, d)
    decreases |ps|
  {
    if |ps| > 1 {
      JoinAvoids(ps[1..], d, c);
      assert c !in ps[0];
    }
  }

  /** A pattern whose first character never occurs in `s` is not found. */
  lemma NotFound(s: string, f: string)
    requires |f| > 0 && f[0] !in s
    ensures Find(s, f, 0).None?
  {
    forall i: nat | i + |f| <= |s| ensures !OccursAt(s, f, i) {
      assert s[i..i + |f|][0] == s[i];
    }
  }
}
