/** The JavaScript string built-ins that the staging tool applies to the text
    returned by git: `indexOf`, `replace` with a string pattern (first
    occurrence only), `replace` with a global literal regular expression,
    `split` on a one-character separator, `split(/\r\n|\r|\n/)` and `trim`.
    Strings are sequences of characters. JavaScript counts UTF-16 code units,
    so an index here can differ from the one `indexOf` returns on text outside
    the Basic Multilingual Plane; whether a pattern occurs at all does not. */
module JsStrings {

  // ---------------------------------------------------------------------------
  // Occurrences of a pattern
  // ---------------------------------------------------------------------------

  /** `pat` occurs in `s` starting at index `i`. */
  predicate OccursAt(s: string, pat: string, i: int) {
    0 <= i && i + |pat| <= |s| && s[i..i + |pat|] == pat
  }

  /** `pat` occurs somewhere in `s` (the reference meaning of `indexOf(pat) !== -1`). */
  ghost predicate Contains(s: string, pat: string) {
    exists i :: OccursAt(s, pat, i)
  }

  lemma OccursShift(s: string, pat: string)
    requires |s| > 0
    ensures forall i :: 0 <= i ==> (OccursAt(s, pat, i + 1) <==> OccursAt(s[1..], pat, i))
  {
    forall i | 0 <= i
      ensures OccursAt(s, pat, i + 1) <==> OccursAt(s[1..], pat, i)
    {
      if 0 <= i && i + 1 + |pat| <= |s| {
        assert s[1..][i..i + |pat|] == s[i + 1..i + 1 + |pat|];
      }
    }
  }

  /** `String.prototype.indexOf(pat)`: the first index at which `pat` occurs,
      or -1 when it does not occur at all. */
  function IndexOf(s: string, pat: string): (r: int)
    ensures -1 <= r <= |s|
    ensures r == -1 <==> !Contains(s, pat)
    ensures r != -1 ==> OccursAt(s, pat, r)
    ensures forall j :: 0 <= j < r ==> !OccursAt(s, pat, j)
    decreases |s|
  {
    if |pat| <= |s| && s[..|pat|] == pat then
      assert OccursAt(s, pat, 0);
      0
    else if s == [] then
      assert forall i :: !OccursAt(s, pat, i);
      -1
    else
      OccursShift(s, pat);
      var k := IndexOf(s[1..], pat);
      assert forall i :: OccursAt(s, pat, i) ==> i == 0 || OccursAt(s[1..], pat, i - 1);
      if k == -1 then -1 else k + 1
  }

  /** When `pat` occurs at `i` and nowhere before, `indexOf` answers `i`. */
  lemma IndexOfFirst(s: string, pat: string, i: int)
    requires OccursAt(s, pat, i)
    requires forall j :: 0 <= j < i ==> !OccursAt(s, pat, j)
    ensures IndexOf(s, pat) == i
  {
    var r := IndexOf(s, pat);
    assert r != -1;
  }

  /** A pattern containing a character that `s` lacks does not occur in `s`. */
  lemma MissingCharNotContained(s: string, pat: string, k: nat)
    requires k < |pat| && pat[k] !in s
    ensures !Contains(s, pat)
  {
    forall i | 0 <= i && i + |pat| <= |s|
      ensures !OccursAt(s, pat, i)
    {
      assert s[i..i + |pat|][k] == s[i + k];
    }
  }

  // ---------------------------------------------------------------------------
  // replace with a string pattern: only the first occurrence is replaced
  // ---------------------------------------------------------------------------

  /** `s` with the `n` characters at `i` replaced by `rep`. */
  function Splice(s: string, i: nat, n: nat, rep: string): (r: string)
    requires i + n <= |s|
    ensures |r| == |s| - n + |rep|
    ensures forall c :: c in r ==> c in s || c in rep
  {
    var r := s[..i] + rep + s[i + n..];
    assert forall c :: c in r ==> c in s[..i] || c in rep || c in s[i + n..];
    r
  }

  /** `s.replace(pat, rep)` for a string `pat` and a replacement without "$":
      `rep` is inserted literally, where JavaScript would expand the patterns
      "$&", "$$", "$`" and "$'". */
  function ReplaceFirst(s: string, pat: string, rep: string): (r: string)
    ensures !Contains(s, pat) ==> r == s
    ensures Contains(s, pat) ==> |r| == |s| - |pat| + |rep|
    ensures forall c :: c in r ==> c in s || c in rep
  {
    var i := IndexOf(s, pat);
    if i == -1 then s else Splice(s, i, |pat|, rep)
  }

  /** The replacement happens at the first occurrence and leaves the rest of `s` alone. */
  lemma ReplaceFirstAt(s: string, pat: string, rep: string, i: int)
    requires OccursAt(s, pat, i)
    requires forall j :: 0 <= j < i ==> !OccursAt(s, pat, j)
    ensures ReplaceFirst(s, pat, rep) == s[..i] + rep + s[i + |pat|..]
  {
    IndexOfFirst(s, pat, i);
    assert ReplaceFirst(s, pat, rep) == Splice(s, i, |pat|, rep);
  }

  /** The first occurrence of `pat` in `head + pat + tail` is the one after
      `head` when none starts inside `head`. */
  lemma ReplaceFirstAfterPrefix(head: string, pat: string, rep: string, tail: string)
    requires forall j :: 0 <= j < |head| ==> !OccursAt(head + pat + tail, pat, j)
    ensures ReplaceFirst(head + pat + tail, pat, rep) == head + rep + tail
  {
    var s := head + pat + tail;
    var n := |head|;
    assert s[n..n + |pat|] == pat;
    ReplaceFirstAt(s, pat, rep, n);
    assert s[..n] == head && s[n + |pat|..] == tail;
  }

  /** ... which holds when `head` lacks the first character of `pat`, */
  lemma ReplaceFirstAfterCharFree(head: string, pat: string, rep: string, tail: string)
    requires |pat| > 0 && pat[0] !in head
    ensures ReplaceFirst(head + pat + tail, pat, rep) == head + rep + tail
  {
    var s := head + pat + tail;
    forall j | 0 <= j < |head|
      ensures !OccursAt(s, pat, j)
    {
      assert s[j] == head[j];
      if j + |pat| <= |s| {
        assert s[j..j + |pat|][0] == s[j];
      }
    }
    ReplaceFirstAfterPrefix(head, pat, rep, tail);
  }

  /** ... and when `pat` does not occur in `head` and its first character
      does not recur in it, so no occurrence straddles the boundary. */
  lemma ReplaceFirstAfterFree(head: string, pat: string, rep: string, tail: string)
    requires |pat| > 0 && !Contains(head, pat)
    requires forall k :: 0 < k < |pat| ==> pat[k] != pat[0]
    ensures ReplaceFirst(head + pat + tail, pat, rep) == head + rep + tail
  {
    var s := head + pat + tail;
    var n := |head|;
    forall j | 0 <= j < n
      ensures !OccursAt(s, pat, j)
    {
      if j + |pat| <= n {
        assert s[j..j + |pat|] == head[j..j + |pat|];
        assert !OccursAt(head, pat, j);
      } else if j + |pat| <= |s| {
        assert s[n] == pat[0];
        assert s[j..j + |pat|][n - j] == s[n];
      }
    }
    ReplaceFirstAfterPrefix(head, pat, rep, tail);
  }

  // ---------------------------------------------------------------------------
  // replace with a global literal regular expression and "" as replacement
  // ---------------------------------------------------------------------------

  /** `s.replace(/pat/g, "")` for a literal, non-empty `pat`: the string is
      scanned left to right, every match is dropped and the scan resumes
      after it. */
  function RemoveAll(s: string, pat: string): (r: string)
    requires |pat| > 0
    ensures !Contains(s, pat) ==> r == s
    ensures Contains(s, pat) ==> |r| <= |s| - |pat|
    ensures |r| <= |s|
    ensures forall c :: c in r ==> c in s
    decreases |s|
  {
    if |pat| <= |s| && s[..|pat|] == pat then
      assert OccursAt(s, pat, 0);
      RemoveAll(s[|pat|..], pat)
    else if s == [] then []
    else
      OccursShift(s, pat);
      assert Contains(s, pat) ==> Contains(s[1..], pat) by {
        if Contains(s, pat) {
          var i :| OccursAt(s, pat, i);
          assert i != 0 && OccursAt(s[1..], pat, i - 1);
        }
      }
      assert !Contains(s, pat) ==> !Contains(s[1..], pat) by {
        if Contains(s[1..], pat) {
          var i :| OccursAt(s[1..], pat, i);
          assert OccursAt(s, pat, i + 1);
        }
      }
      [s[0]] + RemoveAll(s[1..], pat)
  }

  /** Every match is dropped, not only the first: after one is removed the
      scan carries on in the rest. */
  lemma RemoveAllDrops(rest: string, pat: string)
    requires |pat| > 0
    ensures RemoveAll(pat + rest, pat) == RemoveAll(rest, pat)
  {
    assert (pat + rest)[..|pat|] == pat && (pat + rest)[|pat|..] == rest;
  }

  /** A stretch of text that cannot start a match passes through unchanged. */
  lemma {:induction false} RemoveAllKeeps(h: string, rest: string, pat: string)
    requires |pat| > 0 && pat[0] !in h
    ensures RemoveAll(h + rest, pat) == h + RemoveAll(rest, pat)
    decreases |h|
  {
    if h != [] {
      var s := h + rest;
      assert s[0] == h[0] && h[0] in h;
      if |pat| <= |s| {
        assert s[..|pat|][0] == s[0];
      }
      assert s[1..] == h[1..] + rest;
      assert RemoveAll(s, pat) == [s[0]] + RemoveAll(s[1..], pat);
      RemoveAllKeeps(h[1..], rest, pat);
      assert h == [h[0]] + h[1..];
    } else {
      assert h + rest == rest;
    }
  }

  // ---------------------------------------------------------------------------
  // split on a one-character separator
  // ---------------------------------------------------------------------------

  /** `s.split(sep)` for a one-character string `sep`: the text between
      separators, so one more piece than there are separators. */
  function Split(s: string, sep: char): (parts: seq<string>)
    ensures |parts| >= 1
    ensures forall k :: 0 <= k < |parts| ==> sep !in parts[k]
    decreases |s|
  {
    if s == [] then [""]
    else
      var rest := Split(s[1..], sep);
      if s[0] == sep then [""] + rest
      else [[s[0]] + rest[0]] + rest[1..]
  }

  /** `parts.join(sep)`. */
  function Join(parts: seq<string>, sep: char): string
    requires |parts| >= 1
    decreases |parts|
  {
    if |parts| == 1 then parts[0] else parts[0] + [sep] + Join(parts[1..], sep)
  }

  /** Splitting loses nothing: joining the pieces gives the string back. */
  lemma {:induction false} JoinSplit(s: string, sep: char)
    ensures Join(Split(s, sep), sep) == s
    decreases |s|
  {
    if s != [] {
      var rest := Split(s[1..], sep);
      JoinSplit(s[1..], sep);
      if s[0] == sep {
        assert Split(s, sep)[1..] == rest;
      } else {
        var parts := Split(s, sep);
        assert parts[1..] == rest[1..];
        if |rest| > 1 {
          assert rest[1..] == parts[1..];
        }
      }
    }
  }

  /** The last element of a non-empty sequence. */
  function Last<T>(xs: seq<T>): T
    requires |xs| > 0
  {
    xs[|xs| - 1]
  }

  /** A string without the separator is a single piece. */
  lemma {:induction false} SplitWithoutSep(s: string, sep: char)
    requires sep !in s
    ensures Split(s, sep) == [s]
    decreases |s|
  {
    if s != [] {
      SplitWithoutSep(s[1..], sep);
      assert s[0] in s;
      assert [s[0]] + s[1..] == s;
    }
  }

  /** The last piece is the text after the last separator. */
  lemma {:induction false} SplitLastPiece(prefix: string, sep: char, name: string)
    requires sep !in name
    ensures |Split(prefix + [sep] + name, sep)| >= 2
    ensures Last(Split(prefix + [sep] + name, sep)) == name
    decreases |prefix|
  {
    var s := prefix + [sep] + name;
    if prefix == [] {
      assert s[1..] == name;
      SplitWithoutSep(name, sep);
    } else {
      assert s[1..] == prefix[1..] + [sep] + name;
      SplitLastPiece(prefix[1..], sep, name);
    }
  }

  // ---------------------------------------------------------------------------
  // split(/\r\n|\r|\n/)
  // ---------------------------------------------------------------------------

  predicate IsLineBreak(c: char) {
    c == '\r' || c == '\n'
  }

  /** `s.split(/\r\n|\r|\n/)`: at each position the alternatives are tried in
      order, so "\r\n" is one break, not two. */
  function SplitLines(s: string): (lines: seq<string>)
    ensures |lines| >= 1
    ensures forall k, c :: 0 <= k < |lines| && c in lines[k] ==> !IsLineBreak(c)
    decreases |s|
  {
    if s == [] then [""]
    else if |s| >= 2 && s[0] == '\r' && s[1] == '\n' then [""] + SplitLines(s[2..])
    else if IsLineBreak(s[0]) then [""] + SplitLines(s[1..])
    else
      var rest := SplitLines(s[1..]);
      [[s[0]] + rest[0]] + rest[1..]
  }

  /** Text without a line break is a single piece: the piece after the last
      break of any text. */
  lemma {:induction false} SplitLinesNoBreak(t: string)
    requires forall c :: c in t ==> !IsLineBreak(c)
    ensures SplitLines(t) == [t]
    decreases |t|
  {
    if t != [] {
      assert t[0] in t;
      SplitLinesNoBreak(t[1..]);
      assert [t[0]] + t[1..] == t;
    }
  }

  /** A line followed by "\n" becomes one element of the split. */
  lemma {:induction false} SplitLinesLine(h: string, rest: string)
    requires forall c :: c in h ==> !IsLineBreak(c)
    ensures SplitLines(h + "\n" + rest) == [h] + SplitLines(rest)
    decreases |h|
  {
    var s := h + "\n" + rest;
    if h == [] {
      assert s[0] == '\n' && s[1..] == rest;
    } else {
      assert s[0] == h[0] && h[0] in h && s[1..] == h[1..] + "\n" + rest;
      SplitLinesLine(h[1..], rest);
      assert [h[0]] + h[1..] == h;
    }
  }

  /** A line followed by "\r\n" becomes one element of the split: the pair
      is a single break, not two. */
  lemma {:induction false} SplitLinesCrLf(h: string, rest: string)
    requires forall c :: c in h ==> !IsLineBreak(c)
    ensures SplitLines(h + "\r\n" + rest) == [h] + SplitLines(rest)
    decreases |h|
  {
    var s := h + "\r\n" + rest;
    if h == [] {
      assert s[0] == '\r' && s[1] == '\n' && s[2..] == rest;
    } else {
      assert s[0] == h[0] && h[0] in h && s[1..] == h[1..] + "\r\n" + rest;
      SplitLinesCrLf(h[1..], rest);
      assert [h[0]] + h[1..] == h;
    }
  }

  /** A line followed by a lone "\r" (one not followed by "\n") becomes one
      element of the split. */
  lemma {:induction false} SplitLinesCr(h: string, rest: string)
    requires forall c :: c in h ==> !IsLineBreak(c)
    requires rest == [] || rest[0] != '\n'
    ensures SplitLines(h + "\r" + rest) == [h] + SplitLines(rest)
    decreases |h|
  {
    var s := h + "\r" + rest;
    if h == [] {
      assert s[0] == '\r' && s[1..] == rest;
      assert |s| >= 2 ==> s[1] == rest[0];
    } else {
      assert s[0] == h[0] && h[0] in h && s[1..] == h[1..] + "\r" + rest;
      SplitLinesCr(h[1..], rest);
      assert [h[0]] + h[1..] == h;
    }
  }

  // ---------------------------------------------------------------------------
  // trim
  // ---------------------------------------------------------------------------

  /** The characters `String.prototype.trim` removes: ECMAScript WhiteSpace
      (tab, vertical tab, form feed, space, no-break space, byte order mark and
      the other space separators) and LineTerminator (LF, CR, U+2028, U+2029). */
  predicate IsWhiteSpace(c: char) {
    c == '\t' || c == '\n' || c == '\r' || c == ' '
    || c as int == 0x0B || c as int == 0x0C || c as int == 0xA0 || c as int == 0x1680
    || (0x2000 <= c as int <= 0x200A) || c as int == 0x2028 || c as int == 0x2029
    || c as int == 0x202F || c as int == 0x205F || c as int == 0x3000 || c as int == 0xFEFF
  }

  /** The number of white-space characters `s` starts with. */
  function LeadingSpace(s: string): (n: nat)
    ensures n <= |s|
    ensures forall k :: 0 <= k < n ==> IsWhiteSpace(s[k])
    ensures n < |s| ==> !IsWhiteSpace(s[n])
    decreases |s|
  {
    if s != [] && IsWhiteSpace(s[0]) then 1 + LeadingSpace(s[1..]) else 0
  }

  /** The number of white-space characters `s` ends with. */
  function TrailingSpace(s: string): (n: nat)
    ensures n <= |s|
    ensures forall k :: |s| - n <= k < |s| ==> IsWhiteSpace(s[k])
    ensures n < |s| ==> !IsWhiteSpace(s[|s| - n - 1])
    decreases |s|
  {
    if s != [] && IsWhiteSpace(s[|s| - 1]) then 1 + TrailingSpace(s[..|s| - 1]) else 0
  }

  /** The bounds `(a, b)` of the text `trim` keeps: `s[..a]` and `s[b..]` are
      white space, and the kept text neither starts nor ends with it. */
  function TrimBounds(s: string): (ab: (nat, nat))
    ensures ab.0 <= ab.1 <= |s|
    ensures forall k :: 0 <= k < ab.0 ==> IsWhiteSpace(s[k])
    ensures forall k :: ab.1 <= k < |s| ==> IsWhiteSpace(s[k])
    ensures ab.0 < ab.1 ==> !IsWhiteSpace(s[ab.0]) && !IsWhiteSpace(s[ab.1 - 1])
  {
    var a := LeadingSpace(s);
    var t := s[a..];
    var n := TrailingSpace(t);
    TrailOfSuffix(s, a, n);
    (a, |s| - n)
  }

  /** White space ending `s[a..]` ends `s` too. */
  lemma TrailOfSuffix(s: string, a: nat, n: nat)
    requires a <= |s| && n == TrailingSpace(s[a..])
    ensures forall k :: |s| - n <= k < |s| ==> IsWhiteSpace(s[k])
    ensures a < |s| - n ==> !IsWhiteSpace(s[|s| - n - 1])
  {
    var t := s[a..];
    forall k | |s| - n <= k < |s|
      ensures IsWhiteSpace(s[k])
    {
      assert s[k] == t[k - a];
    }
    if a < |s| - n {
      assert s[|s| - n - 1] == t[|t| - n - 1];
    }
  }

  /** `s.trim()`: the longest infix of `s` that neither starts nor ends with
      white space; everything cut off on either side is white space. */
  function Trim(s: string): (r: string)
    ensures exists a, b ::
              && 0 <= a <= b <= |s| && r == s[a..b]
              && (forall k :: 0 <= k < a ==> IsWhiteSpace(s[k]))
              && (forall k :: b <= k < |s| ==> IsWhiteSpace(s[k]))
    ensures r != [] ==> !IsWhiteSpace(r[0]) && !IsWhiteSpace(r[|r| - 1])
  {
    var ab := TrimBounds(s);
    s[ab.0..ab.1]
  }

  /** Text that neither starts nor ends with white space is left as it is. */
  lemma TrimKeeps(s: string)
    requires s == [] || (!IsWhiteSpace(s[0]) && !IsWhiteSpace(s[|s| - 1]))
    ensures Trim(s) == s
  {
    var ab := TrimBounds(s);
    if s != [] {
      assert !IsWhiteSpace(s[0]) && !IsWhiteSpace(s[|s| - 1]);
    }
  }

  /** Trimming cannot create or destroy an occurrence of a pattern that has
      no white space in it. */
  lemma TrimKeepsOccurrences(s: string, pat: string)
    requires |pat| > 0 && forall k :: 0 <= k < |pat| ==> !IsWhiteSpace(pat[k])
    ensures Contains(Trim(s), pat) <==> Contains(s, pat)
  {
    var (a, b) := TrimBounds(s);
    assert Trim(s) == s[a..b];
    if Contains(s[a..b], pat) {
      var i :| OccursAt(s[a..b], pat, i);
      OccurrenceInInfix(s, a, b, pat, i);
    }
    if Contains(s, pat) {
      var i :| OccursAt(s, pat, i);
      OccurrenceInside(s, pat, i, a, b);
      OccurrenceInInfix(s, a, b, pat, i - a);
    }
  }

  /** An occurrence in the infix `s[a..b]` is one in `s`, shifted by `a`. */
  lemma OccurrenceInInfix(s: string, a: nat, b: nat, pat: string, i: int)
    requires a <= b <= |s|
    requires 0 <= i && a + i + |pat| <= b
    ensures OccursAt(s[a..b], pat, i) <==> OccursAt(s, pat, a + i)
  {
    var t := s[a..b];
    forall j | a + i <= j < a + i + |pat|
      ensures s[j] == t[j - a]
    {
    }
    assert t[i..i + |pat|] == s[a + i..a + i + |pat|];
  }

  lemma OccurrenceInside(s: string, pat: string, i: int, a: nat, b: nat)
    requires |pat| > 0 && forall k :: 0 <= k < |pat| ==> !IsWhiteSpace(pat[k])
    requires OccursAt(s, pat, i) && a <= b <= |s|
    requires forall k :: 0 <= k < a ==> IsWhiteSpace(s[k])
    requires forall k :: b <= k < |s| ==> IsWhiteSpace(s[k])
    ensures a <= i && i + |pat| <= b
  {
    assert s[i..i + |pat|][0] == s[i] && !IsWhiteSpace(pat[0]);
    var e := i + |pat| - 1;
    assert s[i..i + |pat|][|pat| - 1] == s[e] && !IsWhiteSpace(pat[|pat| - 1]);
  }
}
