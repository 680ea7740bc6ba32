/**
 * The three java.lang.String operations the grammar parser relies on, written out by hand:
 * trim(), and split(regex) for the three patterns it uses ("::=", "[|]" and "[ \t]+").
 *
 * split(regex) with no limit works in two stages, modelled separately here:
 *  1. the input is cut at every leftmost, non-overlapping match of the pattern (the raw pieces;
 *     a match at position 0 yields an empty leading piece);
 *  2. when the pattern did not match at all the result is the input itself (so "" gives [""]),
 *     otherwise trailing empty pieces are dropped (so "a|" gives ["a"] and "|" gives []).
 */
module JavaText {

  /** String.trim() removes every leading and trailing character whose code is at most U+0020. */
  predicate IsTrimmable(c: char) {
    c <= ' '
  }

  /** Characters matched by the character class [ \t]. */
  predicate IsBlank(c: char) {
    c == ' ' || c == '\t'
  }

  ghost predicate AllTrimmable(s: string) {
    forall i :: 0 <= i < |s| ==> IsTrimmable(s[i])
  }

  /** No character of s is at most U+0020 (so no character is a space or a tab either). */
  ghost predicate NoneTrimmable(s: string) {
    forall i :: 0 <= i < |s| ==> !IsTrimmable(s[i])
  }

  ghost predicate NoBlank(s: string) {
    forall i :: 0 <= i < |s| ==> !IsBlank(s[i])
  }

  // ---------------------------------------------------------------------------------------------
  // trim()

  /** s without its leading characters at most U+0020. */
  function TrimStart(s: string): (r: string)
    ensures |r| <= |s|
    ensures r == [] || !IsTrimmable(r[0])
  {
    if s != [] && IsTrimmable(s[0]) then TrimStart(s[1..]) else s
  }

  /** s without its trailing characters at most U+0020. */
  function TrimEnd(s: string): (r: string)
    ensures |r| <= |s|
    ensures r == [] || !IsTrimmable(r[|r| - 1])
  {
    if s != [] && IsTrimmable(s[|s| - 1]) then TrimEnd(s[..|s| - 1]) else s
  }

  /** TrimStart keeps a suffix and removes only trimmable characters. */
  lemma {:induction false} TrimStartIsSuffix(s: string)
    ensures TrimStart(s) == s[|s| - |TrimStart(s)|..]
    ensures AllTrimmable(s[..|s| - |TrimStart(s)|])
    decreases |s|
  {
    if s != [] && IsTrimmable(s[0]) {
      var r := TrimStart(s[1..]);
      TrimStartIsSuffix(s[1..]);
      assert s[1..][|s| - 1 - |r|..] == s[|s| - |r|..];
      assert s[..|s| - |r|] == [s[0]] + s[1..][..|s| - 1 - |r|];
    }
  }

  /** TrimEnd keeps a prefix and removes only trimmable characters. */
  lemma {:induction false} TrimEndIsPrefix(s: string)
    ensures TrimEnd(s) == s[..|TrimEnd(s)|]
    ensures AllTrimmable(s[|TrimEnd(s)|..])
    decreases |s|
  {
    if s != [] && IsTrimmable(s[|s| - 1]) {
      var r := TrimEnd(s[..|s| - 1]);
      TrimEndIsPrefix(s[..|s| - 1]);
      assert s[..|s| - 1][..|r|] == s[..|r|];
      assert s[|r|..] == s[..|s| - 1][|r|..] + [s[|s| - 1]];
    }
  }

  /** Neither the first nor the last character is removable by trim(). */
  predicate IsTrimmed(s: string) {
    s == [] || (!IsTrimmable(s[0]) && !IsTrimmable(s[|s| - 1]))
  }

  /** String.trim(): the result neither starts nor ends with a character at most U+0020. */
  function Trim(s: string): (r: string)
    ensures |r| <= |s| && IsTrimmed(r)
  {
    var t := TrimStart(s);
    TrimEndIsPrefix(t);
    TrimEnd(t)
  }

  /** What trim() returns is a slice of its input, and everything cut away on either side is
      at most U+0020. */
  lemma TrimIsSlice(s: string)
    ensures var r := Trim(s);
            exists i :: 0 <= i <= |s| - |r| && r == s[i..i + |r|]
                        && AllTrimmable(s[..i]) && AllTrimmable(s[i + |r|..])
  {
    var t := TrimStart(s);
    var r := TrimEnd(t);
    TrimStartIsSuffix(s);
    TrimEndIsPrefix(t);
    var i := |s| - |t|;
    assert r == s[i..i + |r|];
    assert s[i + |r|..] == t[|r|..];
  }

  lemma {:induction false} TrimStartOfPadded(p: string, s: string)
    requires AllTrimmable(p)
    ensures TrimStart(p + s) == TrimStart(s)
    decreases |p|
  {
    if p == [] {
      assert p + s == s;
    } else {
      assert (p + s)[0] == p[0];
      assert (p + s)[1..] == p[1..] + s;
      TrimStartOfPadded(p[1..], s);
    }
  }

  lemma {:induction false} TrimEndOfPadded(s: string, q: string)
    requires AllTrimmable(q)
    ensures TrimEnd(s + q) == TrimEnd(s)
    decreases |q|
  {
    if q == [] {
      assert s + q == s;
    } else {
      assert (s + q)[|s + q| - 1] == q[|q| - 1];
      assert (s + q)[..|s + q| - 1] == s + q[..|q| - 1];
      TrimEndOfPadded(s, q[..|q| - 1]);
    }
  }

  lemma {:induction false} TrimStartKeepsSuffix(s: string, q: string)
    requires !AllTrimmable(s)
    ensures TrimStart(s + q) == TrimStart(s) + q
    decreases |s|
  {
    assert s != [];
    if IsTrimmable(s[0]) {
      assert (s + q)[1..] == s[1..] + q;
      TrimStartKeepsSuffix(s[1..], q);
    }
  }

  lemma TrimStartOfBlank(s: string)
    requires AllTrimmable(s)
    ensures TrimStart(s) == []
  {
  }

  /** Padding a string with trimmable characters on either side does not change what trim() returns. */
  lemma TrimIgnoresPadding(p: string, s: string, q: string)
    requires AllTrimmable(p) && AllTrimmable(q)
    ensures Trim(p + s + q) == Trim(s)
  {
    assert p + s + q == p + (s + q);
    TrimStartOfPadded(p, s + q);
    if AllTrimmable(s) {
      TrimStartOfBlank(s);
      assert AllTrimmable(s + q);
      TrimStartOfBlank(s + q);
    } else {
      TrimStartKeepsSuffix(s, q);
      TrimEndOfPadded(TrimStart(s), q);
    }
  }

  /** A string that neither starts nor ends with a trimmable character is left alone by trim(). */
  lemma TrimOfTrimmed(s: string)
    requires IsTrimmed(s)
    ensures Trim(s) == s
  {
  }

  /** trim() is idempotent. */
  lemma TrimIdempotent(s: string)
    ensures Trim(Trim(s)) == Trim(s)
  {
    TrimOfTrimmed(Trim(s));
  }

  // ---------------------------------------------------------------------------------------------
  // Stage 2 of split(): Java's handling of the raw pieces

  /** Drops the empty pieces at the end of the list, and only those. */
  function StripTrailingEmpty(pieces: seq<string>): (r: seq<string>)
    ensures r <= pieces
    ensures r == [] || r[|r| - 1] != ""
    ensures forall i :: |r| <= i < |pieces| ==> pieces[i] == ""
  {
    if pieces != [] && pieces[|pieces| - 1] == "" then StripTrailingEmpty(pieces[..|pieces| - 1])
    else pieces
  }

  /** What split(regex) returns, given the raw pieces of a pattern that only matches non-empty text:
      an unmatched input (in particular the empty one) comes back whole, otherwise trailing empty
      pieces are removed. */
  function FinishSplit(s: string, pieces: seq<string>): (r: seq<string>)
    ensures s == "" ==> r == [""]
    ensures s != "" ==> r <= pieces && (r == [] || r[|r| - 1] != "")
    ensures s != "" ==> forall i :: |r| <= i < |pieces| ==> pieces[i] == ""
  {
    if s == "" then [""] else StripTrailingEmpty(pieces)
  }

  // ---------------------------------------------------------------------------------------------
  // Joining, the inverse of the raw split

  function Join(parts: seq<string>, sep: string): string
    requires |parts| >= 1
  {
    if |parts| == 1 then parts[0] else parts[0] + sep + Join(parts[1..], sep)
  }

  /** Joining one more part appends the separator and that part. */
  lemma {:induction false} JoinSnoc(parts: seq<string>, x: string, sep: string)
    requires |parts| >= 1
    ensures Join(parts + [x], sep) == Join(parts, sep) + sep + x
    decreases |parts|
  {
    if |parts| > 1 {
      assert (parts + [x])[1..] == parts[1..] + [x];
      JoinSnoc(parts[1..], x, sep);
    }
  }

  /** Dropping trailing empty pieces drops only separators at the end of the joined text. */
  lemma {:induction false} JoinOfStripped(pieces: seq<string>, sep: string)
    requires |pieces| >= 1 && StripTrailingEmpty(pieces) != []
    ensures Join(StripTrailingEmpty(pieces), sep) <= Join(pieces, sep)
    decreases |pieces|
  {
    var n := |pieces|;
    if pieces[n - 1] == "" {
      var shorter := pieces[..n - 1];
      assert shorter + [pieces[n - 1]] == pieces;
      JoinSnoc(shorter, "", sep);
      JoinOfStripped(shorter, sep);
    }
  }

  // ---------------------------------------------------------------------------------------------
  // split("::="): a literal delimiter

  /** d occurs in s starting at position j. */
  predicate OccursAt(s: string, d: string, j: nat) {
    j + |d| <= |s| && s[j..j + |d|] == d
  }

  /** Position of the leftmost occurrence of d in s, or -1 when there is none. */
  function IndexOf(s: string, d: string): (i: int)
    requires |d| > 0
    ensures i >= -1 && (i >= 0 ==> i <= |s| - |d|)
    ensures i >= 0 ==> OccursAt(s, d, i)
    ensures i >= 0 ==> forall j: nat :: j < i ==> !OccursAt(s, d, j)
    ensures i < 0 ==> forall j: nat :: !OccursAt(s, d, j)
    decreases |s|
  {
    if |s| < |d| then -1
    else if s[..|d|] == d then 0
    else
      var r := IndexOf(s[1..], d);
      assert forall j: nat :: OccursAt(s, d, j + 1) == OccursAt(s[1..], d, j) by {
        forall j: nat ensures OccursAt(s, d, j + 1) == OccursAt(s[1..], d, j) {
          if j + 1 + |d| <= |s| {
            var a, b := s[j + 1..j + 1 + |d|], s[1..][j..j + |d|];
            assert forall m :: 0 <= m < |d| ==> a[m] == b[m];
            assert a == b;
          }
        }
      }
      assert !OccursAt(s, d, 0);
      assert forall j: nat :: j > 0 ==> OccursAt(s, d, j) == OccursAt(s[1..], d, j - 1);
      if r < 0 then -1 else r + 1
  }

  /** The raw pieces of s around the leftmost non-overlapping occurrences of d. */
  function PiecesAtDelimiter(s: string, d: string): (pieces: seq<string>)
    requires |d| > 0
    ensures |pieces| >= 1
    ensures Join(pieces, d) == s
    ensures forall i :: 0 <= i < |pieces| ==> IndexOf(pieces[i], d) < 0
    decreases |s|
  {
    var i := IndexOf(s, d);
    if i < 0 then [s]
    else
      var rest := PiecesAtDelimiter(s[i + |d|..], d);
      assert s == s[..i] + d + s[i + |d|..];
      assert IndexOf(s[..i], d) < 0 by {
        forall j: nat ensures !OccursAt(s[..i], d, j) {
          if j + |d| <= i {
            assert s[..i][j..j + |d|] == s[j..j + |d|];
            assert !OccursAt(s, d, j);
          }
        }
      }
      [s[..i]] + rest
  }

  /** s.split(d) for a pattern d that matches only itself, such as "::=". No piece holds d, an
      input without d comes back whole, and joining the pieces with d gives the input up to the
      delimiters dropped with trailing empty pieces. */
  function SplitAt(s: string, d: string): (pieces: seq<string>)
    requires |d| > 0
    ensures forall i :: 0 <= i < |pieces| ==> IndexOf(pieces[i], d) < 0
    ensures IndexOf(s, d) < 0 ==> pieces == [s]
    ensures pieces != [] ==> Join(pieces, d) <= s
  {
    var raw := PiecesAtDelimiter(s, d);
    assert s != "" && StripTrailingEmpty(raw) != [] ==> Join(StripTrailingEmpty(raw), d) <= Join(raw, d) by {
      if s != "" && StripTrailingEmpty(raw) != [] { JoinOfStripped(raw, d); }
    }
    FinishSplit(s, raw)
  }

  /** The leftmost occurrence is at n when d occurs there and nowhere before. */
  lemma IndexOfIs(s: string, d: string, n: nat)
    requires |d| > 0 && OccursAt(s, d, n)
    requires forall j: nat :: j < n ==> !OccursAt(s, d, j)
    ensures IndexOf(s, d) == n
  {
  }

  /** A string without the first character of d holds no occurrence of d. */
  lemma IndexOfAbsent(s: string, d: string)
    requires |d| > 0 && d[0] !in s
    ensures IndexOf(s, d) < 0
  {
    forall j: nat ensures !OccursAt(s, d, j) {
      if j + |d| <= |s| { assert s[j..j + |d|][0] == s[j]; }
    }
  }

  /** When x holds no first character of d, the first cut of x + d + y is right after x. */
  lemma PiecesAfterPrefix(x: string, d: string, y: string)
    requires |d| > 0 && d[0] !in x
    ensures PiecesAtDelimiter(x + d + y, d) == [x] + PiecesAtDelimiter(y, d)
  {
    var s := x + d + y;
    assert s[|x|..|x| + |d|] == d;
    forall j: nat | j < |x| ensures !OccursAt(s, d, j) {
      if j + |d| <= |s| { assert s[j..j + |d|][0] == x[j]; }
    }
    IndexOfIs(s, d, |x|);
    assert s[..|x|] == x;
    assert s[|x| + |d|..] == y;
  }

  /** Stripping trailing empty pieces keeps every piece up to a non-empty one. */
  lemma StripKeepsPrefix(a: seq<string>, b: seq<string>)
    requires a != [] && a[|a| - 1] != ""
    ensures |StripTrailingEmpty(a + b)| >= |a| && StripTrailingEmpty(a + b)[..|a|] == a
    decreases |b|
  {
    if b != [] && b[|b| - 1] == "" {
      assert (a + b)[..|a + b| - 1] == a + b[..|b| - 1];
      StripKeepsPrefix(a, b[..|b| - 1]);
    }
  }

  lemma JoinFirst(parts: seq<string>, sep: string)
    requires |parts| >= 1 && parts[0] != ""
    ensures Join(parts, sep) != "" && Join(parts, sep)[0] == parts[0][0]
  {
  }

  lemma {:induction false} JoinLast(parts: seq<string>, sep: string)
    requires |parts| >= 1 && parts[|parts| - 1] != ""
    ensures Join(parts, sep) != "" && Join(parts, sep)[|Join(parts, sep)| - 1] == parts[|parts| - 1][|parts[|parts| - 1]| - 1]
    decreases |parts|
  {
    if |parts| > 1 {
      JoinLast(parts[1..], sep);
    }
  }

  /** A character in neither the parts nor the separator is not in their join. */
  lemma {:induction false} JoinAvoids(parts: seq<string>, sep: string, c: char)
    requires |parts| >= 1 && c !in sep
    requires forall i :: 0 <= i < |parts| ==> c !in parts[i]
    ensures c !in Join(parts, sep)
    decreases |parts|
  {
    if |parts| > 1 {
      JoinAvoids(parts[1..], sep, c);
    }
  }

  // ---------------------------------------------------------------------------------------------
  // split("[|]"): one separator character

  function IndexOfChar(s: string, c: char): (i: nat)
    requires c in s
    ensures i < |s| && s[i] == c && c !in s[..i]
  {
    if s[0] == c then 0 else 1 + IndexOfChar(s[1..], c)
  }

  lemma {:induction false} IndexOfCharAt(s: string, c: char, n: nat)
    requires n < |s| && s[n] == c && c !in s[..n]
    ensures IndexOfChar(s, c) == n
  {
    if n > 0 {
      assert s[0] == s[..n][0];
      assert s[1..][n - 1] == c;
      assert s[1..][..n - 1] == s[..n][1..];
      IndexOfCharAt(s[1..], c, n - 1);
    }
  }

  /** The raw pieces of s around every occurrence of c. */
  function PiecesAtChar(s: string, c: char): (pieces: seq<string>)
    ensures |pieces| >= 1
    ensures forall i :: 0 <= i < |pieces| ==> c !in pieces[i]
    ensures Join(pieces, [c]) == s
    decreases |s|
  {
    if c in s then
      var i := IndexOfChar(s, c);
      var rest := PiecesAtChar(s[i + 1..], c);
      assert s == s[..i] + [c] + s[i + 1..];
      [s[..i]] + rest
    else [s]
  }

  /** s.split("[|]") when c is '|'. No piece holds c, an input without c comes back whole, and
      joining the pieces with c gives the input up to the separators dropped with trailing empty
      pieces. */
  function SplitChar(s: string, c: char): (pieces: seq<string>)
    ensures forall i :: 0 <= i < |pieces| ==> c !in pieces[i]
    ensures c !in s ==> pieces == [s]
    ensures pieces != [] ==> Join(pieces, [c]) <= s
  {
    var raw := PiecesAtChar(s, c);
    assert s != "" && StripTrailingEmpty(raw) != [] ==> Join(StripTrailingEmpty(raw), [c]) <= Join(raw, [c]) by {
      if s != "" && StripTrailingEmpty(raw) != [] { JoinOfStripped(raw, [c]); }
    }
    FinishSplit(s, raw)
  }

  /** Splitting at a character undoes joining with it, provided no part contains it. */
  lemma {:induction false} PiecesAtCharOfJoin(parts: seq<string>, c: char)
    requires |parts| >= 1
    requires forall i :: 0 <= i < |parts| ==> c !in parts[i]
    ensures PiecesAtChar(Join(parts, [c]), c) == parts
    decreases |parts|
  {
    if |parts| > 1 {
      var s := Join(parts, [c]);
      var rest := Join(parts[1..], [c]);
      assert s == parts[0] + [c] + rest;
      assert s[|parts[0]|] == c;
      assert s[..|parts[0]|] == parts[0];
      IndexOfCharAt(s, c, |parts[0]|);
      assert s[|parts[0]| + 1..] == rest;
      PiecesAtCharOfJoin(parts[1..], c);
    }
  }

  // ---------------------------------------------------------------------------------------------
  // split("[ \t]+"): runs of spaces and tabs

  predicate HasBlank(s: string) {
    exists i :: 0 <= i < |s| && IsBlank(s[i])
  }

  function FirstBlank(s: string): (i: nat)
    requires HasBlank(s)
    ensures i < |s| && IsBlank(s[i]) && NoBlank(s[..i])
  {
    if IsBlank(s[0]) then 0
    else
      assert HasBlank(s[1..]) by {
        var j :| 0 <= j < |s| && IsBlank(s[j]);
        assert s[1..][j - 1] == s[j];
      }
      1 + FirstBlank(s[1..])
  }

  lemma {:induction false} FirstBlankAt(s: string, n: nat)
    requires n < |s| && IsBlank(s[n]) && NoBlank(s[..n])
    ensures FirstBlank(s) == n
  {
    if n > 0 {
      assert s[0] == s[..n][0];
      assert s[1..][n - 1] == s[n];
      assert s[1..][..n - 1] == s[..n][1..];
      FirstBlankAt(s[1..], n - 1);
    }
  }

  /** The end of the run of blanks starting at position i: the greedy extent of "[ \t]+". */
  function RunEnd(s: string, i: nat): (j: nat)
    requires i <= |s|
    ensures i <= j <= |s|
    ensures forall k :: i <= k < j ==> IsBlank(s[k])
    ensures j == |s| || !IsBlank(s[j])
    decreases |s| - i
  {
    if i < |s| && IsBlank(s[i]) then RunEnd(s, i + 1) else i
  }

  /** The raw pieces of s around every maximal run of spaces and tabs. Every piece is free of blanks;
      only the first and the last piece can be empty, and neither is when s does not start (resp.
      end) with a blank. */
  function PiecesAtBlankRuns(s: string): (pieces: seq<string>)
    ensures |pieces| >= 1
    ensures forall i :: 0 <= i < |pieces| ==> NoBlank(pieces[i])
    ensures forall i :: 0 < i < |pieces| - 1 ==> pieces[i] != ""
    ensures s != [] && !IsBlank(s[0]) ==> pieces[0] != ""
    ensures s != [] && !IsBlank(s[|s| - 1]) ==> pieces[|pieces| - 1] != ""
    decreases |s|
  {
    if HasBlank(s) then
      var i := FirstBlank(s);
      var j := RunEnd(s, i);
      var rest := PiecesAtBlankRuns(s[j..]);
      assert j < |s| ==> s[j..][0] == s[j];
      assert j < |s| ==> s[j..][|s[j..]| - 1] == s[|s| - 1];
      [s[..i]] + rest
    else
      assert NoBlank(s);
      [s]
  }

  /** s.split("[ \t]+"). No piece holds a blank, and an input without blanks comes back whole. */
  function SplitBlanks(s: string): (pieces: seq<string>)
    ensures forall i :: 0 <= i < |pieces| ==> NoBlank(pieces[i])
    ensures !HasBlank(s) ==> pieces == [s]
  {
    FinishSplit(s, PiecesAtBlankRuns(s))
  }

  /** Splitting trimmed text at blank runs: the empty text gives [""], any other text gives
      non-empty pieces only, and no piece holds a blank. */
  lemma SplitBlanksOfTrimmed(t: string)
    requires IsTrimmed(t)
    ensures |SplitBlanks(t)| >= 1
    ensures forall i :: 0 <= i < |SplitBlanks(t)| ==> NoBlank(SplitBlanks(t)[i])
    ensures t == "" <==> SplitBlanks(t) == [""]
    ensures t != "" ==> forall i :: 0 <= i < |SplitBlanks(t)| ==> SplitBlanks(t)[i] != ""
  {
    if t != "" {
      var pieces := PiecesAtBlankRuns(t);
      assert !IsBlank(t[0]) && !IsBlank(t[|t| - 1]);
      assert StripTrailingEmpty(pieces) == pieces;
    }
  }

  /** A non-empty run of spaces and tabs: one match of [ \t]+. */
  ghost predicate BlankRun(r: string) {
    r != "" && forall i :: 0 <= i < |r| ==> IsBlank(r[i])
  }

  ghost predicate BlankRuns(runs: seq<string>) {
    forall k :: 0 <= k < |runs| ==> BlankRun(runs[k])
  }

  /** parts[0] + seps[0] + parts[1] + ... + parts[n - 1]: parts with a separator of its own between
      each two. */
  function JoinEach(parts: seq<string>, seps: seq<string>): string
    requires |parts| >= 1 && |seps| == |parts| - 1
  {
    if |parts| == 1 then parts[0] else parts[0] + seps[0] + JoinEach(parts[1..], seps[1..])
  }

  /** n copies of x. */
  function Repeat(x: string, n: nat): (r: seq<string>)
    ensures |r| == n && forall k :: 0 <= k < n ==> r[k] == x
  {
    if n == 0 then [] else [x] + Repeat(x, n - 1)
  }

  /** Joining with one separator is joining with that separator in every place. */
  lemma {:induction false} JoinIsJoinEach(parts: seq<string>, sep: string)
    requires |parts| >= 1
    ensures Join(parts, sep) == JoinEach(parts, Repeat(sep, |parts| - 1))
    decreases |parts|
  {
    if |parts| > 1 {
      JoinIsJoinEach(parts[1..], sep);
      assert Repeat(sep, |parts| - 1)[1..] == Repeat(sep, |parts| - 2);
    }
  }

  lemma JoinEachFirst(parts: seq<string>, seps: seq<string>)
    requires |parts| >= 1 && |seps| == |parts| - 1 && parts[0] != ""
    ensures JoinEach(parts, seps) != "" && JoinEach(parts, seps)[0] == parts[0][0]
  {
    if |parts| > 1 {
      assert JoinEach(parts, seps) == parts[0] + (seps[0] + JoinEach(parts[1..], seps[1..]));
    }
  }

  lemma {:induction false} JoinEachLast(parts: seq<string>, seps: seq<string>)
    requires |parts| >= 1 && |seps| == |parts| - 1 && parts[|parts| - 1] != ""
    ensures var s := JoinEach(parts, seps);
            s != "" && s[|s| - 1] == parts[|parts| - 1][|parts[|parts| - 1]| - 1]
    decreases |parts|
  {
    if |parts| > 1 {
      JoinEachLast(parts[1..], seps[1..]);
    }
  }

  /** A character in no part and no separator is not in their join. */
  lemma {:induction false} JoinEachAvoids(parts: seq<string>, seps: seq<string>, c: char)
    requires |parts| >= 1 && |seps| == |parts| - 1
    requires forall i :: 0 <= i < |parts| ==> c !in parts[i]
    requires forall k :: 0 <= k < |seps| ==> c !in seps[k]
    ensures c !in JoinEach(parts, seps)
    decreases |parts|
  {
    if |parts| > 1 {
      JoinEachAvoids(parts[1..], seps[1..], c);
    }
  }

  /** The run starting at i ends at j when everything in between is blank and s[j] is not. */
  lemma {:induction false} RunEndAt(s: string, i: nat, j: nat)
    requires i <= j <= |s|
    requires forall k :: i <= k < j ==> IsBlank(s[k])
    requires j == |s| || !IsBlank(s[j])
    ensures RunEnd(s, i) == j
    decreases j - i
  {
    if i < j {
      RunEndAt(s, i + 1, j);
    }
  }

  /** One cut of split("[ \t]+"): blank-free text, then a whole run of blanks, then text that does
      not continue the run. */
  lemma PiecesAtBlankRunsStep(x: string, r: string, y: string)
    requires NoBlank(x) && BlankRun(r) && (y == "" || !IsBlank(y[0]))
    ensures PiecesAtBlankRuns(x + r + y) == [x] + PiecesAtBlankRuns(y)
  {
    var s := x + r + y;
    var n, e := |x|, |x| + |r|;
    assert IsBlank(s[n]) by { assert s[n] == r[0]; }
    assert FirstBlank(s) == n by {
      assert s[..n] == x;
      FirstBlankAt(s, n);
    }
    assert RunEnd(s, n) == e by {
      forall k | n <= k < e ensures IsBlank(s[k]) { assert s[k] == r[k - n]; }
      if e < |s| { assert s[e] == y[0]; }
      RunEndAt(s, n, e);
    }
    assert s[..n] == x && s[e..] == y;
    PiecesAtBlankRunsUnfold(s);
  }

  lemma PiecesAtBlankRunsUnfold(s: string)
    requires HasBlank(s)
    ensures PiecesAtBlankRuns(s) == [s[..FirstBlank(s)]] + PiecesAtBlankRuns(s[RunEnd(s, FirstBlank(s))..])
  {
  }

  /** Splitting at blank runs undoes joining with blank runs, for every list of pieces it can
      return: blank-free pieces, of which only the first and the last may be empty. */
  lemma {:induction false} PiecesAtBlankRunsOfJoinEach(parts: seq<string>, runs: seq<string>)
    requires |parts| >= 1 && |runs| == |parts| - 1 && BlankRuns(runs)
    requires forall i :: 0 <= i < |parts| ==> NoBlank(parts[i])
    requires forall i :: 0 < i < |parts| - 1 ==> parts[i] != ""
    ensures PiecesAtBlankRuns(JoinEach(parts, runs)) == parts
    decreases |parts|
  {
    if |parts| == 1 {
      assert !HasBlank(parts[0]);
    } else {
      var tail := parts[1..];
      var y := JoinEach(tail, runs[1..]);
      if |parts| > 2 {
        JoinEachFirst(tail, runs[1..]);
        assert !IsBlank(tail[0][0]);
      } else {
        assert y == parts[1];
      }
      PiecesAtBlankRunsStep(parts[0], runs[0], y);
      PiecesAtBlankRunsOfJoinEach(tail, runs[1..]);
    }
  }

  /** Conversely, the pieces joined with the runs they were cut at give the text back. */
  lemma {:induction false} PiecesAtBlankRunsRejoin(s: string)
    ensures var pieces := PiecesAtBlankRuns(s);
            exists runs :: |runs| == |pieces| - 1 && BlankRuns(runs) && JoinEach(pieces, runs) == s
    decreases |s|
  {
    var pieces := PiecesAtBlankRuns(s);
    if HasBlank(s) {
      var i := FirstBlank(s);
      var j := RunEnd(s, i);
      var rest := PiecesAtBlankRuns(s[j..]);
      PiecesAtBlankRunsUnfold(s);
      PiecesAtBlankRunsRejoin(s[j..]);
      var more :| |more| == |rest| - 1 && BlankRuns(more) && JoinEach(rest, more) == s[j..];
      RejoinCut(s, i, j, rest, more);
    } else {
      assert JoinEach(pieces, []) == s;
    }
  }

  /** The step of the rejoin: the text before a run, the run, and the text after it rejoined. */
  lemma RejoinCut(s: string, i: nat, j: nat, rest: seq<string>, more: seq<string>)
    requires i < j <= |s| && forall k :: i <= k < j ==> IsBlank(s[k])
    requires |rest| >= 1 && |more| == |rest| - 1 && BlankRuns(more) && JoinEach(rest, more) == s[j..]
    ensures exists runs :: |runs| == |rest| && BlankRuns(runs) && JoinEach([s[..i]] + rest, runs) == s
  {
    var run := s[i..j];
    assert BlankRun(run) by {
      forall k | 0 <= k < |run| ensures IsBlank(run[k]) { assert run[k] == s[i + k]; }
    }
    RejoinStep(s[..i], run, s[j..], rest, more);
    SliceSplit(s, i, j);
    var runs := [run] + more;
    assert JoinEach([s[..i]] + rest, runs) == s;
  }

  lemma SliceSplit(s: string, i: nat, j: nat)
    requires i <= j <= |s|
    ensures s[..i] + s[i..j] + s[j..] == s
  {
  }

  lemma RejoinStep(x: string, run: string, y: string, rest: seq<string>, more: seq<string>)
    requires BlankRun(run) && |rest| >= 1 && |more| == |rest| - 1 && BlankRuns(more)
    requires JoinEach(rest, more) == y
    ensures var runs := [run] + more;
            |runs| == |[x] + rest| - 1 && BlankRuns(runs) && JoinEach([x] + rest, runs) == x + run + y
  {
    var runs := [run] + more;
    assert ([x] + rest)[1..] == rest && runs[1..] == more;
  }

}
