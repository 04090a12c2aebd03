/**
 * The Python string operations the core relies on, stated over `seq<char>`:
 * the `in` operator on strings, ASCII `lower()`, whitespace `split()` and
 * `strip()`, `strip(chars)`, `sep.join(parts)` and `s.split(c)[-1]`.
 */
module Strings {

  /** `needle` occurs in `hay` starting at offset `i`. */
  predicate OccursAt(needle: string, hay: string, i: int) {
    0 <= i <= |hay| - |needle| && hay[i..i + |needle|] == needle
  }

  /** Python's `needle in hay` on strings: `needle` occurs at some offset of `hay`. */
  predicate IsSubstring(needle: string, hay: string) {
    exists i :: 0 <= i <= |hay| - |needle| && OccursAt(needle, hay, i)
  }

  /** Executable substring search, checked against `IsSubstring`. */
  method Contains(needle: string, hay: string) returns (found: bool)
    ensures found <==> IsSubstring(needle, hay)
  {
    if |needle| > |hay| {
      return false;
    }
    var i := 0;
    while i <= |hay| - |needle|
      invariant 0 <= i <= |hay| - |needle| + 1
      invariant forall j :: 0 <= j < i ==> !OccursAt(needle, hay, j)
    {
      if hay[i..i + |needle|] == needle {
        assert OccursAt(needle, hay, i);
        return true;
      }
      i := i + 1;
    }
    return false;
  }

  // ---------------------------------------------------------------- case

  predicate IsUpper(c: char) {
    'A' <= c <= 'Z'
  }

  /** `c.lower()` restricted to ASCII letters. */
  function LowerChar(c: char): (r: char)
    ensures !IsUpper(r)
    ensures !IsUpper(c) ==> r == c
  {
    if IsUpper(c) then (c as int + 32) as char else c
  }

  /** `s.lower()` restricted to ASCII letters; every other character is kept. */
  function Lower(s: string): (r: string)
    ensures |r| == |s|
    ensures forall i :: 0 <= i < |s| ==> r[i] == LowerChar(s[i])
  {
    seq(|s|, i requires 0 <= i < |s| => LowerChar(s[i]))
  }

  /** No ASCII upper-case letter occurs in `s`. */
  predicate IsLowerCase(s: string) {
    forall c :: c in s ==> !IsUpper(c)
  }

  lemma LowerCaseFixed(s: string)
    requires IsLowerCase(s)
    ensures Lower(s) == s
  {
  }

  lemma LowerIdempotent(s: string)
    ensures Lower(Lower(s)) == Lower(s)
  {
  }

  lemma LowerConcat(a: string, b: string)
    ensures Lower(a + b) == Lower(a) + Lower(b)
  {
  }

  // ---------------------------------------------------------- whitespace

  /**
   * The characters Python's `str.split()` and `str.strip()` treat as
   * whitespace, within ASCII: tab to carriage return, the four separators
   * 0x1C to 0x1F, and space.
   */
  predicate IsSpace(c: char) {
    9 <= c as int <= 13 || 28 <= c as int <= 32
  }

  /** The same characters as a set, for `Strip`. */
  const Whitespace: set<char> := set i | 9 <= i <= 32 && IsSpace(i as char) :: i as char

  lemma WhitespaceIsSpace()
    ensures forall c :: c in Whitespace <==> IsSpace(c)
  {
  }

  /** Length of the run of non-whitespace characters that starts `s`. */
  function TokenLength(s: string): (n: nat)
    ensures n <= |s|
    ensures forall i :: 0 <= i < n ==> !IsSpace(s[i])
    ensures n < |s| ==> IsSpace(s[n])
  {
    if |s| == 0 || IsSpace(s[0]) then 0 else 1 + TokenLength(s[1..])
  }

  /** Python's `s.split()`: the maximal runs of non-whitespace characters, in order. */
  function Words(s: string): (ws: seq<string>)
    ensures forall k :: 0 <= k < |ws| ==> |ws[k]| > 0
    ensures forall k, i :: 0 <= k < |ws| && 0 <= i < |ws[k]| ==> !IsSpace(ws[k][i])
    decreases |s|
  {
    if |s| == 0 then []
    else if IsSpace(s[0]) then Words(s[1..])
    else
      var n := TokenLength(s);
      [s[..n]] + Words(s[n..])
  }

  /** No whitespace character occurs in `w`. */
  predicate IsToken(w: string) {
    |w| > 0 && forall c :: c in w ==> !IsSpace(c)
  }

  lemma {:induction false} TokenLengthOfToken(w: string, rest: string)
    requires IsToken(w)
    requires |rest| == 0 || IsSpace(rest[0])
    ensures TokenLength(w + rest) == |w|
    decreases |w|
  {
    assert (w + rest)[0] == w[0];
    if |w| > 1 {
      assert (w + rest)[1..] == w[1..] + rest;
      TokenLengthOfToken(w[1..], rest);
    } else {
      assert (w + rest)[1..] == rest;
    }
  }

  /** `split()` of a token followed by whitespace or nothing starts with that token. */
  lemma WordsOfTokenThen(w: string, rest: string)
    requires IsToken(w)
    requires |rest| == 0 || IsSpace(rest[0])
    ensures Words(w + rest) == [w] + Words(rest)
  {
    TokenLengthOfToken(w, rest);
    assert (w + rest)[..|w|] == w;
    assert (w + rest)[|w|..] == rest;
  }

  /** Leading whitespace does not show in `split()`. */
  lemma WordsSkipSpace(c: char, rest: string)
    requires IsSpace(c)
    ensures Words([c] + rest) == Words(rest)
  {
    assert ([c] + rest)[1..] == rest;
  }

  /** `split()` of a token, one blank and more text. */
  lemma WordsOfTokenBlank(w: string, rest: string)
    requires IsToken(w)
    ensures Words(w + " " + rest) == [w] + Words(rest)
  {
    assert w + " " + rest == w + ([' '] + rest);
    WordsOfTokenThen(w, [' '] + rest);
    WordsSkipSpace(' ', rest);
  }

  /** Every non-whitespace character of `s` lands in some word of `s.split()`. */
  lemma {:induction false} WordsCover(s: string, i: nat)
    requires i < |s| && !IsSpace(s[i])
    ensures exists k :: 0 <= k < |Words(s)| && s[i] in Words(s)[k]
    decreases |s|
  {
    var ws := Words(s);
    if IsSpace(s[0]) {
      WordsCover(s[1..], i - 1);
      var k :| 0 <= k < |Words(s[1..])| && s[1..][i - 1] in Words(s[1..])[k];
      assert ws[k] == Words(s[1..])[k];
    } else {
      var n := TokenLength(s);
      if i < n {
        assert ws[0] == s[..n];
        assert s[..n][i] == s[i];
      } else {
        WordsCover(s[n..], i - n);
        var k :| 0 <= k < |Words(s[n..])| && s[n..][i - n] in Words(s[n..])[k];
        assert ws[k + 1] == Words(s[n..])[k];
      }
    }
  }

  /** `s[i..j]` is a maximal run of non-whitespace characters of `s`. */
  predicate IsRun(s: string, i: int, j: int) {
    && 0 <= i < j <= |s|
    && (forall p :: i <= p < j ==> !IsSpace(s[p]))
    && (i == 0 || IsSpace(s[i - 1]))
    && (j == |s| || IsSpace(s[j]))
  }

  /** Two maximal runs that share a position are the same run. */
  lemma RunsMeet(s: string, i: int, j: int, i2: int, j2: int, p: int)
    requires IsRun(s, i, j) && IsRun(s, i2, j2)
    requires i <= p < j && i2 <= p < j2
    ensures i == i2 && j == j2
  {
    if i > 0 {
      assert IsSpace(s[i - 1]);
    }
    if i2 > 0 {
      assert IsSpace(s[i2 - 1]);
    }
    if j < |s| {
      assert IsSpace(s[j]);
    }
    if j2 < |s| {
      assert IsSpace(s[j2]);
    }
  }

  /** The word `w` is the maximal run of `s` at offset `i`. */
  predicate WordAt(s: string, w: string, i: int) {
    IsRun(s, i, i + |w|) && w == s[i..i + |w|]
  }

  /** Each of `ws` is a maximal run of `s`, at the matching offset of `st`. */
  predicate RunsAt(s: string, ws: seq<string>, st: seq<int>) {
    |st| == |ws| && forall k :: 0 <= k < |ws| ==> WordAt(s, ws[k], st[k])
  }

  /** The words lie left to right, with a gap between neighbours. */
  predicate Ascending(ws: seq<string>, st: seq<int>) {
    |st| == |ws| && forall k, m :: 0 <= k < m < |ws| ==> st[k] + |ws[k]| < st[m]
  }

  /** Every non-whitespace character of `s` lies in one of the words. */
  predicate Covers(s: string, ws: seq<string>, st: seq<int>) {
    |st| == |ws| && forall p :: 0 <= p < |s| && !IsSpace(s[p]) ==> exists k :: 0 <= k < |ws| && st[k] <= p < st[k] + |ws[k]|
  }

  /** `ws` are the maximal runs of `s` at offsets `st`, in order, and nothing else of `s` is left out. */
  predicate SplitsInto(s: string, ws: seq<string>, st: seq<int>) {
    RunsAt(s, ws, st) && Ascending(ws, st) && Covers(s, ws, st)
  }

  function Shift(xs: seq<int>, d: int): (r: seq<int>)
    ensures |r| == |xs|
    ensures forall k :: 0 <= k < |xs| ==> r[k] == xs[k] + d
  {
    seq(|xs|, k requires 0 <= k < |xs| => xs[k] + d)
  }

  /** Where each word of `Words(s)` starts in `s`. */
  function WordStarts(s: string): (st: seq<int>)
    ensures |st| == |Words(s)|
    decreases |s|
  {
    if |s| == 0 then []
    else if IsSpace(s[0]) then Shift(WordStarts(s[1..]), 1)
    else
      var n := TokenLength(s);
      [0] + Shift(WordStarts(s[n..]), n)
  }

  /** A word of a suffix `s[d..]` that begins at a word boundary is a word of `s`. */
  lemma WordOfSuffix(s: string, d: int, w: string, i: int)
    requires 0 <= d <= |s|
    requires d == 0 || d == |s| || IsSpace(s[d - 1]) || IsSpace(s[d])
    requires WordAt(s[d..], w, i)
    ensures WordAt(s, w, d + i)
    ensures i > 0 || d == 0 || IsSpace(s[d - 1])
  {
    var t := s[d..];
    var j := i + |w|;
    assert i == 0 ==> !IsSpace(t[0]);
    if i > 0 {
      assert s[d + i - 1] == t[i - 1];
    }
    if j < |t| {
      assert s[d + j] == t[j];
    }
    forall p | d + i <= p < d + j
      ensures !IsSpace(s[p])
    {
      assert s[p] == t[p - d];
    }
    assert t[i..j] == s[d + i..d + j];
  }

  lemma RunsOfSuffix(s: string, d: int, ws: seq<string>, st: seq<int>)
    requires 0 <= d <= |s|
    requires d == 0 || d == |s| || IsSpace(s[d - 1]) || IsSpace(s[d])
    requires RunsAt(s[d..], ws, st)
    ensures RunsAt(s, ws, Shift(st, d))
    ensures forall k :: 0 <= k < |ws| ==> st[k] > 0 || d == 0 || IsSpace(s[d - 1])
  {
    forall k | 0 <= k < |ws|
      ensures WordAt(s, ws[k], st[k] + d)
      ensures st[k] > 0 || d == 0 || IsSpace(s[d - 1])
    {
      WordOfSuffix(s, d, ws[k], st[k]);
    }
  }

  lemma CoversOfSuffix(s: string, d: int, ws: seq<string>, st: seq<int>)
    requires 0 <= d <= |s|
    requires Covers(s[d..], ws, st)
    ensures forall p :: d <= p < |s| && !IsSpace(s[p]) ==>
              exists k :: 0 <= k < |ws| && st[k] + d <= p < st[k] + d + |ws[k]|
  {
    forall p | d <= p < |s| && !IsSpace(s[p])
      ensures exists k :: 0 <= k < |ws| && st[k] + d <= p < st[k] + d + |ws[k]|
    {
      assert s[d..][p - d] == s[p];
      var k :| 0 <= k < |ws| && st[k] <= p - d < st[k] + |ws[k]|;
    }
  }

  /** Leading whitespace moves every word one place to the right. */
  lemma WordsAfterSpace(s: string)
    requires |s| > 0 && IsSpace(s[0])
    ensures Words(s) == Words(s[1..])
    ensures WordStarts(s) == Shift(WordStarts(s[1..]), 1)
  {
  }

  lemma AscendingShift(ws: seq<string>, st: seq<int>, d: int)
    requires Ascending(ws, st)
    ensures Ascending(ws, Shift(st, d))
  {
    var sh := Shift(st, d);
    forall k, m | 0 <= k < m < |ws|
      ensures sh[k] + |ws[k]| < sh[m]
    {
      assert st[k] + |ws[k]| < st[m];
    }
  }

  lemma SplitsAfterSpace(s: string, ws: seq<string>, st: seq<int>)
    requires |s| > 0 && IsSpace(s[0])
    requires SplitsInto(s[1..], ws, st)
    ensures SplitsInto(s, ws, Shift(st, 1))
  {
    var sh := Shift(st, 1);
    RunsOfSuffix(s, 1, ws, st);
    AscendingShift(ws, st, 1);
    CoversOfSuffix(s, 1, ws, st);
    forall p | 0 <= p < |s| && !IsSpace(s[p])
      ensures exists k :: 0 <= k < |ws| && sh[k] <= p < sh[k] + |ws[k]|
    {
      assert p >= 1;
    }
  }

  /** The first word of a text that starts with a token is that token, and the rest follow it. */
  lemma WordsAfterToken(s: string)
    requires |s| > 0 && !IsSpace(s[0])
    ensures Words(s) == [s[..TokenLength(s)]] + Words(s[TokenLength(s)..])
    ensures WordStarts(s) == [0] + Shift(WordStarts(s[TokenLength(s)..]), TokenLength(s))
    ensures WordAt(s, s[..TokenLength(s)], 0)
  {
  }

  /** A first token `s[..n]` put before the runs of `s[n..]` gives runs of `s`. */
  lemma RunsAtAfterToken(s: string, n: int, tws: seq<string>, tst: seq<int>)
    requires 0 < n <= |s| && WordAt(s, s[..n], 0)
    requires RunsAt(s[n..], tws, tst)
    ensures RunsAt(s, [s[..n]] + tws, [0] + Shift(tst, n))
    ensures forall k :: 0 <= k < |tws| ==> tst[k] > 0
  {
    var ws := [s[..n]] + tws;
    var st := [0] + Shift(tst, n);
    RunsOfSuffix(s, n, tws, tst);
    forall k | 1 <= k < |ws|
      ensures WordAt(s, ws[k], st[k])
    {
      assert ws[k] == tws[k - 1] && st[k] == tst[k - 1] + n;
    }
  }

  lemma AscendingAfterToken(n: int, w: string, tws: seq<string>, tst: seq<int>)
    requires |w| == n
    requires Ascending(tws, tst)
    requires forall k :: 0 <= k < |tws| ==> tst[k] > 0
    ensures Ascending([w] + tws, [0] + Shift(tst, n))
  {
    var ws := [w] + tws;
    var st := [0] + Shift(tst, n);
    forall k, m | 0 <= k < m < |ws|
      ensures st[k] + |ws[k]| < st[m]
    {
      assert st[m] == tst[m - 1] + n && tst[m - 1] > 0;
      if k > 0 {
        assert st[k] == tst[k - 1] + n && ws[k] == tws[k - 1];
      }
    }
  }

  lemma CoversAfterToken(s: string, n: int, tws: seq<string>, tst: seq<int>)
    requires 0 < n <= |s|
    requires Covers(s[n..], tws, tst)
    ensures Covers(s, [s[..n]] + tws, [0] + Shift(tst, n))
  {
    var ws := [s[..n]] + tws;
    var st := [0] + Shift(tst, n);
    CoversOfSuffix(s, n, tws, tst);
    forall p | 0 <= p < |s| && !IsSpace(s[p])
      ensures exists k :: 0 <= k < |ws| && st[k] <= p < st[k] + |ws[k]|
    {
      if p < n {
        assert st[0] <= p < st[0] + |ws[0]|;
      } else {
        var k :| 0 <= k < |tws| && tst[k] + n <= p < tst[k] + n + |tws[k]|;
        assert st[k + 1] <= p < st[k + 1] + |ws[k + 1]|;
      }
    }
  }

  /**
   * `split()` characterised: its words are exactly the maximal runs of
   * non-whitespace characters of `s`, at increasing offsets, and every
   * non-whitespace character lies in one of them.
   */
  lemma {:induction false} WordsAreRuns(s: string)
    ensures SplitsInto(s, Words(s), WordStarts(s))
    decreases |s|
  {
    if |s| > 0 {
      if IsSpace(s[0]) {
        WordsAreRuns(s[1..]);
        WordsAfterSpace(s);
        SplitsAfterSpace(s, Words(s[1..]), WordStarts(s[1..]));
      } else {
        var n := TokenLength(s);
        WordsAreRuns(s[n..]);
        WordsAfterToken(s);
        RunsAtAfterToken(s, n, Words(s[n..]), WordStarts(s[n..]));
        AscendingAfterToken(n, s[..n], Words(s[n..]), WordStarts(s[n..]));
        CoversAfterToken(s, n, Words(s[n..]), WordStarts(s[n..]));
      }
    }
  }

  // --------------------------------------------------------------- strip

  /** Number of leading characters of `s` that belong to `chars`. */
  function LeadingIn(s: string, chars: set<char>): (n: nat)
    ensures n <= |s|
    ensures forall k :: 0 <= k < n ==> s[k] in chars
    ensures n < |s| ==> s[n] !in chars
  {
    if |s| == 0 || s[0] !in chars then 0 else 1 + LeadingIn(s[1..], chars)
  }

  /** Number of trailing characters of `s` that belong to `chars`. */
  function TrailingIn(s: string, chars: set<char>): (n: nat)
    ensures n <= |s|
    ensures forall k :: |s| - n <= k < |s| ==> s[k] in chars
    ensures n < |s| ==> s[|s| - n - 1] !in chars
  {
    if |s| == 0 || s[|s| - 1] !in chars then 0 else 1 + TrailingIn(s[..|s| - 1], chars)
  }

  /** `r` is the slice of `s` at offset `i`, and everything around it is in `chars`. */
  predicate StrippedAt(s: string, chars: set<char>, r: string, i: int) {
    && 0 <= i <= |s| - |r|
    && r == s[i..i + |r|]
    && (forall k :: 0 <= k < i ==> s[k] in chars)
    && (forall k :: i + |r| <= k < |s| ==> s[k] in chars)
  }

  /** Python's `s.strip(chars)`. */
  function Strip(s: string, chars: set<char>): (r: string)
    ensures |r| <= |s|
    ensures |r| > 0 ==> r[0] !in chars && r[|r| - 1] !in chars
  {
    var a := LeadingIn(s, chars);
    var rest := s[a..];
    rest[..|rest| - TrailingIn(rest, chars)]
  }

  /**
   * What `Strip` leaves: a slice of `s` that neither starts nor ends with a
   * character of `chars`, with only characters of `chars` cut on either side.
   */
  lemma StripSpec(s: string, chars: set<char>)
    ensures exists i :: StrippedAt(s, chars, Strip(s, chars), i)
  {
    var a := LeadingIn(s, chars);
    var r := Strip(s, chars);
    assert StrippedAt(s, chars, r, a);
  }

  /** Stripping a text that ends in one stripped character gives the text back when its ends are kept. */
  lemma StripOneTrailing(w: string, chars: set<char>, c: char)
    requires |w| > 0 && w[0] !in chars && w[|w| - 1] !in chars
    requires c in chars
    ensures Strip(w + [c], chars) == w
  {
    var s := w + [c];
    assert LeadingIn(s, chars) == 0;
    assert s[0..] == s;
    assert TrailingIn(s, chars) == 1 by {
      assert s[..|s| - 1] == w;
    }
  }

  /** Stripping never removes a character outside `chars`. */
  lemma StripKeeps(s: string, chars: set<char>, c: char)
    requires c in s && c !in chars
    ensures c in Strip(s, chars)
  {
    var r := Strip(s, chars);
    StripSpec(s, chars);
    var i :| StrippedAt(s, chars, r, i);
    var p :| 0 <= p < |s| && s[p] == c;
    assert i <= p < i + |r|;
    assert r[p - i] == c;
  }

  // ---------------------------------------------------------- join, split

  /** The combined length of `parts`. */
  function TotalLength(parts: seq<string>): nat {
    if |parts| == 0 then 0 else |parts[0]| + TotalLength(parts[1..])
  }

  /**
   * Python's `sep.join(parts)`: the parts in order with one separator
   * between neighbours, nothing added and nothing lost.
   */
  function Join(parts: seq<string>, sep: string): (r: string)
    ensures |parts| > 0 ==> parts[0] <= r
    ensures |parts| > 1 ==> parts[0] + sep <= r
  {
    if |parts| == 0 then ""
    else if |parts| == 1 then parts[0]
    else parts[0] + sep + Join(parts[1..], sep)
  }

  /** Round trip: splitting tokens joined by single blanks gives the tokens back. */
  lemma {:induction false} WordsOfJoin(ws: seq<string>)
    requires forall k :: 0 <= k < |ws| ==> IsToken(ws[k])
    ensures Words(Join(ws, " ")) == ws
  {
    if |ws| == 1 {
      WordsOfTokenThen(ws[0], "");
      assert ws[0] + "" == ws[0];
    } else if |ws| > 1 {
      WordsOfJoin(ws[1..]);
      WordsOfTokenBlank(ws[0], Join(ws[1..], " "));
      assert ws == [ws[0]] + ws[1..];
    }
  }

  /** The joined text is exactly as long as the parts plus one separator between each pair. */
  lemma {:induction false} JoinLength(parts: seq<string>, sep: string)
    requires |parts| > 0
    ensures |Join(parts, sep)| == TotalLength(parts) + (|parts| - 1) * |sep|
  {
    if |parts| > 1 {
      JoinLength(parts[1..], sep);
      assert (|parts| - 1) * |sep| == |sep| + (|parts| - 2) * |sep|;
    }
  }

  lemma ConcatAssoc(a: string, b: string, c: string)
    ensures a + (b + c) == (a + b) + c
  {
  }

  lemma JoinCons(parts: seq<string>, sep: string)
    requires |parts| > 1
    ensures Join(parts, sep) == parts[0] + sep + Join(parts[1..], sep)
  {
  }

  /** Joining one more part appends a separator and that part: the parts appear in order. */
  lemma {:induction false} JoinSnoc(parts: seq<string>, x: string, sep: string)
    requires |parts| > 0
    ensures Join(parts + [x], sep) == Join(parts, sep) + sep + x
  {
    var all := parts + [x];
    if |parts| > 1 {
      assert all[0] == parts[0] && all[1..] == parts[1..] + [x];
      JoinSnoc(parts[1..], x, sep);
      JoinCons(all, sep);
      JoinCons(parts, sep);
      var rest := Join(parts[1..], sep);
      ConcatAssoc(parts[0] + sep, rest, sep + x);
    } else {
      assert all[0] == parts[0] && all[1..] == [x];
      JoinCons(all, sep);
    }
  }

  /** A character of any part is a character of the joined text. */
  lemma {:induction false} JoinContains(ws: seq<string>, sep: string, k: nat, c: char)
    requires k < |ws| && c in ws[k]
    ensures c in Join(ws, sep)
  {
    if |ws| > 1 {
      if k > 0 {
        JoinContains(ws[1..], sep, k - 1, c);
      }
    }
  }

  /**
   * Python's `s.split(c)[-1]`: the text after the last `c`, or all of `s`
   * when `c` does not occur.
   */
  function AfterLast(s: string, c: char): (r: string)
    ensures |r| <= |s| && r == s[|s| - |r|..]
    ensures c !in r
    ensures |r| < |s| ==> s[|s| - |r| - 1] == c
  {
    if |s| == 0 then ""
    else if s[|s| - 1] == c then ""
    else AfterLast(s[..|s| - 1], c) + [s[|s| - 1]]
  }
}
