/**
 * Integer helpers of the readback path: `pad` (round up to a multiple) and
 * `formatMatrix` (render a flat texel array as text, one matrix row per line),
 * together with the whitespace trimming that `formatMatrix` applies last.
 */
module MathUtils {
  import opened Wrappers

  // ---------------------------------------------------------------------------
  // pad
  // ---------------------------------------------------------------------------

  /** `Math.ceil(v / m)` for integers `v` and a non-zero integer `m`. */
  function CeilDiv(v: int, m: int): (q: int)
    requires m != 0
    ensures m > 0 ==> (q - 1) * m < v <= q * m
    ensures m < 0 ==> q * m <= v < (q - 1) * m
    decreases if m > 0 then 0 else 1
  {
    if m > 0 then
      if v % m == 0 then v / m else v / m + 1
    else
      CeilDiv(-v, -m)
  }

  /**
   * `pad(v, m) = Math.ceil(v / m) * m`. For a positive `m` it is the smallest
   * multiple of `m` that is at least `v`; for a negative `m` the same formula
   * gives the largest multiple of `m` that is at most `v`.
   */
  function Pad(v: int, m: int): (p: int)
    requires m != 0
    ensures p % m == 0
    ensures m > 0 ==> v <= p < v + m
    ensures m < 0 ==> v + m < p <= v
  {
    var q := CeilDiv(v, m);
    MultipleHasNoRemainder(q, m);
    q * m
  }

  lemma MultipleHasNoRemainder(q: int, m: int)
    requires m != 0
    ensures (q * m) % m == 0
  {
    var d, r := (q * m) / m, (q * m) % m;
    assert q * m == d * m + r && 0 <= r < (if m > 0 then m else -m);
    assert r == (q - d) * m;
    if q - d >= 1 {
      if m > 0 { MulMonotone(1, q - d, m); } else { MulMonotone(1, q - d, -m); }
    } else if q - d <= -1 {
      if m > 0 { MulMonotone(1, d - q, m); } else { MulMonotone(1, d - q, -m); }
    }
  }

  lemma MulMonotone(a: int, b: int, m: int)
    requires a <= b && 0 <= m
    ensures a * m <= b * m
  {
    assert b * m - a * m == (b - a) * m;
  }

  /** No multiple of a positive `m` that is at least `v` lies below `Pad(v, m)`. */
  lemma {:induction false} PadIsLeastMultiple(v: int, m: int, k: int)
    requires m > 0 && k * m >= v
    ensures Pad(v, m) <= k * m
  {
    var q := CeilDiv(v, m);
    if q > k {
      MulMonotone(k, q - 1, m);
      assert false;
    }
    MulMonotone(q, k, m);
  }

  /** `pad` leaves `v` unchanged exactly when `m` already divides it. */
  lemma PadFixedIff(v: int, m: int)
    requires m > 0
    ensures Pad(v, m) == v <==> v % m == 0
  {
    if v % m == 0 {
      assert CeilDiv(v, m) == v / m;
    }
  }

  lemma PadIdempotent(v: int, m: int)
    requires m > 0
    ensures Pad(Pad(v, m), m) == Pad(v, m)
  {
    PadFixedIff(Pad(v, m), m);
  }

  /** The doc comment's example and every integer value of the unit tests, negative input included. */
  lemma PadExamples()
    ensures Pad(7, 3) == 9
    ensures Pad(10, 5) == 10 && Pad(15, 5) == 15
    ensures Pad(11, 5) == 15 && Pad(12, 5) == 15 && Pad(13, 5) == 15 && Pad(14, 5) == 15
    ensures Pad(0, 5) == 0 && Pad(-7, 5) == -5
    ensures Pad(1000000, 1000) == 1000000 && Pad(1000001, 1000) == 1001000
    ensures Pad(10, 3) == 12 && Pad(10, 7) == 14 && Pad(42, 1) == 42
  {
  }

  // ---------------------------------------------------------------------------
  // String.prototype.trim
  // ---------------------------------------------------------------------------

  /** The ECMAScript WhiteSpace and LineTerminator code points, which `trim` removes. */
  predicate IsWhitespace(c: char) {
    || ('\U{0009}' <= c <= '\U{000D}')
    || c == ' ' || c == '\U{00A0}' || c == '\U{1680}'
    || ('\U{2000}' <= c <= '\U{200A}')
    || c == '\U{2028}' || c == '\U{2029}' || c == '\U{202F}'
    || c == '\U{205F}' || c == '\U{3000}' || c == '\U{FEFF}'
  }

  predicate AllWhitespace(s: string) {
    forall i :: 0 <= i < |s| ==> IsWhitespace(s[i])
  }

  /** Neither end of `s` is whitespace. */
  predicate Trimmed(s: string) {
    |s| == 0 || (!IsWhitespace(s[0]) && !IsWhitespace(s[|s| - 1]))
  }

  /** A whitespace character followed by a whitespace run is a whitespace run. */
  lemma WhitespacePrefix(s: string, n: nat)
    requires 0 < n <= |s| && IsWhitespace(s[0]) && AllWhitespace(s[1..][..n - 1])
    ensures AllWhitespace(s[..n])
  {
    forall i | 0 <= i < n
      ensures IsWhitespace(s[..n][i])
    {
      if i > 0 {
        assert s[..n][i] == s[1..][..n - 1][i - 1];
      }
    }
  }

  function TrimStart(s: string): (t: string)
    ensures |t| <= |s| && t == s[|s| - |t|..]
    ensures AllWhitespace(s[..|s| - |t|])
    ensures |t| == 0 || !IsWhitespace(t[0])
  {
    if |s| > 0 && IsWhitespace(s[0]) then
      var t := TrimStart(s[1..]);
      var n := |s| - |t|;
      assert s[1..][n - 1..] == s[n..];
      WhitespacePrefix(s, n);
      t
    else
      s
  }

  function TrimEnd(s: string): (t: string)
    ensures |t| <= |s| && t == s[..|t|]
    ensures AllWhitespace(s[|t|..])
    ensures |t| == 0 || !IsWhitespace(t[|t| - 1])
  {
    if |s| > 0 && IsWhitespace(s[|s| - 1]) then
      var t := TrimEnd(s[..|s| - 1]);
      assert s[|t|..] == s[..|s| - 1][|t|..] + [s[|s| - 1]];
      t
    else
      s
  }

  /** `s.trim()`: `s` with its leading and trailing whitespace removed. */
  function Trim(s: string): (t: string)
    ensures Trimmed(t)
  {
    var u := TrimStart(s);
    var t := TrimEnd(u);
    assert |t| > 0 ==> t[0] == u[0];
    t
  }

  /** The number of whitespace characters `trim` cuts off the front of `s`. */
  function LeadingWhitespace(s: string): nat {
    |s| - |TrimStart(s)|
  }

  /** What `trim` cuts off on either side is whitespace only, and nothing else changes. */
  lemma TrimCutsOnlyWhitespace(s: string)
    ensures LeadingWhitespace(s) + |Trim(s)| <= |s|
    ensures s == s[..LeadingWhitespace(s)] + Trim(s) + s[LeadingWhitespace(s) + |Trim(s)|..]
    ensures AllWhitespace(s[..LeadingWhitespace(s)])
    ensures AllWhitespace(s[LeadingWhitespace(s) + |Trim(s)|..])
  {
    var u := TrimStart(s);
    var t := TrimEnd(u);
    var k := |s| - |u|;
    assert Trim(s) == t && LeadingWhitespace(s) == k;
    assert u == s[k..];
    assert t == u[..|t|];
    var tail := u[|t|..];
    assert AllWhitespace(tail);
    assert s[k + |t|..] == tail by {
      SliceOfSlice(s, k, |t|);
    }
    assert t == s[k..k + |t|] by {
      TakeOfSlice(s, k, |t|);
    }
    SplitThree(s, k, |t|);
  }

  lemma TakeOfSlice(s: string, k: nat, n: nat)
    requires k + n <= |s|
    ensures s[k..][..n] == s[k..k + n]
  {
  }

  lemma SplitThree(s: string, k: nat, n: nat)
    requires k + n <= |s|
    ensures s == s[..k] + s[k..k + n] + s[k + n..]
  {
    assert s[..k] + s[k..k + n] == s[..k + n];
  }

  /** Dropping k and then j elements drops k + j. */
  lemma SliceOfSlice(s: string, k: nat, j: nat)
    requires k + j <= |s|
    ensures s[k..][j..] == s[k + j..]
  {
  }

  lemma {:induction false} TrimStartSkips(a: string, t: string)
    requires AllWhitespace(a)
    requires |t| == 0 || !IsWhitespace(t[0])
    ensures TrimStart(a + t) == t
    decreases |a|
  {
    if |a| > 0 {
      assert (a + t)[1..] == a[1..] + t;
      TrimStartSkips(a[1..], t);
    } else {
      assert a + t == t;
    }
  }

  lemma {:induction false} TrimEndSkips(t: string, b: string)
    requires AllWhitespace(b)
    requires |t| == 0 || !IsWhitespace(t[|t| - 1])
    ensures TrimEnd(t + b) == t
    decreases |b|
  {
    if |b| > 0 {
      assert (t + b)[..|t + b| - 1] == t + b[..|b| - 1];
      TrimEndSkips(t, b[..|b| - 1]);
    } else {
      assert t + b == t;
    }
  }

  /**
   * `trim` is determined by what it keeps: wrapping a trimmed string in
   * whitespace on both sides and trimming gives it back.
   */
  lemma TrimUnique(a: string, t: string, b: string)
    requires AllWhitespace(a) && AllWhitespace(b) && Trimmed(t)
    ensures Trim(a + t + b) == t
  {
    if |t| == 0 {
      assert a + t + b == a + b;
      assert AllWhitespace(a + b);
      TrimStartSkips(a + b, "");
      assert a + b + "" == a + b;
      assert TrimStart(a + b) == "";
      TrimEndSkips("", "");
      assert "" + "" == "";
    } else {
      assert a + t + b == a + (t + b);
      TrimStartSkips(a, t + b);
      TrimEndSkips(t, b);
    }
  }

  lemma TrimIdempotent(s: string)
    ensures Trim(Trim(s)) == Trim(s)
  {
    var t := Trim(s);
    assert TrimStart(t) == t;
    assert TrimEnd(t) == t;
  }

  // ---------------------------------------------------------------------------
  // formatMatrix
  // ---------------------------------------------------------------------------

  /** `Array.prototype.join`: the cells with `sep` between neighbours. */
  function Join(cells: seq<string>, sep: string): string {
    if |cells| == 0 then ""
    else if |cells| == 1 then cells[0]
    else cells[0] + sep + Join(cells[1..], sep)
  }

  lemma {:induction false} JoinAvoids(cells: seq<string>, sep: string, c: char)
    requires c !in sep
    requires forall i :: 0 <= i < |cells| ==> c !in cells[i]
    ensures c !in Join(cells, sep)
  {
    if |cells| > 1 {
      JoinAvoids(cells[1..], sep, c);
    }
  }

  /** No cell and not the separator contains a line feed. */
  predicate NoLineFeed(cells: seq<string>, sep: string) {
    && '\n' !in sep
    && forall i :: 0 <= i < |cells| ==> '\n' !in cells[i]
  }

  /** Row `i` of `k` cells lies within `len` cells. */
  predicate RowFits(i: nat, k: nat, len: nat) {
    (i + 1) * k <= len
  }

  /** Row i of k cells starts no later than it ends. */
  lemma RowStartBelowEnd(i: nat, k: nat)
    ensures i * k <= (i + 1) * k
  {
    assert (i + 1) * k == i * k + k;
  }

  /** Row `i` of the matrix as text: its `k` cells, joined, then the separator. */
  function RowText(cells: seq<string>, k: nat, sep: string, i: nat): string
    requires (i + 1) * k <= |cells|
  {
    RowStartBelowEnd(i, k);
    Join(cells[i * k..(i + 1) * k], sep) + sep
  }

  /** Line `i` of the matrix before trimming: the row's text and a line feed. */
  function RowLine(cells: seq<string>, k: nat, sep: string, i: nat): string
    requires (i + 1) * k <= |cells|
  {
    RowText(cells, k, sep, i) + "\n"
  }

  /** The first `n` lines of the matrix, before trimming. */
  function Lines(cells: seq<string>, k: nat, sep: string, n: nat): string
    requires n * k <= |cells|
  {
    if n == 0 then ""
    else
      RowStartBelowEnd(n - 1, k);
      Lines(cells, k, sep, n - 1) + RowLine(cells, k, sep, n - 1)
  }

  /**
   * When neither the cells nor the separator hold a line feed, the text of
   * `n` lines holds exactly `n` line feeds: one matrix row per line.
   */
  lemma RowLineLineFeeds(cells: seq<string>, k: nat, sep: string, i: nat)
    requires (i + 1) * k <= |cells|
    requires NoLineFeed(cells, sep)
    ensures multiset(RowLine(cells, k, sep, i))['\n'] == 1
  {
    RowStartBelowEnd(i, k);
    var row := cells[i * k..(i + 1) * k];
    forall j | 0 <= j < |row|
      ensures '\n' !in row[j]
    {
      assert row[j] == cells[i * k + j];
    }
    JoinAvoids(row, sep, '\n');
    var joined := Join(row, sep);
    assert multiset(joined)['\n'] == 0;
    assert multiset(sep)['\n'] == 0;
    assert multiset(joined + sep + "\n") == multiset(joined) + multiset(sep) + multiset("\n");
  }

  /**
   * When neither the cells nor the separator hold a line feed, the text of
   * `n` lines holds exactly `n` line feeds: one matrix row per line.
   */
  lemma {:induction false} LinesLineFeedCount(cells: seq<string>, k: nat, sep: string, n: nat)
    requires n * k <= |cells|
    requires NoLineFeed(cells, sep)
    ensures multiset(Lines(cells, k, sep, n))['\n'] == n
  {
    if n > 0 {
      RowStartBelowEnd(n - 1, k);
      LinesLineFeedCount(cells, k, sep, n - 1);
      RowLineLineFeeds(cells, k, sep, n - 1);
      var prefix := Lines(cells, k, sep, n - 1);
      var line := RowLine(cells, k, sep, n - 1);
      assert Lines(cells, k, sep, n) == prefix + line;
      assert multiset(prefix + line) == multiset(prefix) + multiset(line);
      assert multiset(prefix + line)['\n'] == multiset(prefix)['\n'] + multiset(line)['\n'];
    } else {
      assert Lines(cells, k, sep, n) == "";
    }
  }

  // ---------------------------------------------------------------------------
  // Reading the lines back
  // ---------------------------------------------------------------------------

  /** The length of the first line of `s`: the index of its first line feed, or `|s|` if it has none. */
  function LineEnd(s: string): (j: nat)
    ensures j <= |s|
    ensures '\n' !in s[..j]
    ensures j < |s| ==> s[j] == '\n'
    decreases |s|
  {
    if |s| == 0 || s[0] == '\n' then 0
    else
      var j := 1 + LineEnd(s[1..]);
      assert s[..j] == [s[0]] + s[1..][..j - 1];
      j
  }

  /**
   * The lines of `s`, each without its line feed; a final piece without a
   * line feed counts as a line too, and a text ending in a line feed has no
   * empty last line.
   */
  function SplitLines(s: string): seq<string> {
    SplitFrom(s)
  }

  /** The recursion of `SplitLines`: the first line, then the lines after its line feed. */
  function SplitFrom(s: string): seq<string>
    decreases |s|
  {
    if |s| == 0 then []
    else
      var j := LineEnd(s);
      [s[..j]] + (if j < |s| then SplitFrom(s[j + 1..]) else [])
  }

  /** A line without a line feed, then a line feed, then more text, splits as that line followed by the rest. */
  lemma SplitFirst(x: string, t: string)
    requires '\n' !in x
    ensures SplitLines(x + "\n" + t) == [x] + SplitLines(t)
  {
    var s := x + "\n" + t;
    var j := LineEnd(s);
    assert s[|x|] == '\n';
    assert s[..j] == x;
    assert s[j + 1..] == t;
  }

  /** A non-empty text ending in a line feed is its first line, a line feed, and a rest that is empty or ends in a line feed. */
  lemma FirstLine(a: string) returns (head: string, tail: string)
    requires |a| > 0 && a[|a| - 1] == '\n'
    ensures a == head + "\n" + tail && '\n' !in head
    ensures |tail| < |a| && (|tail| == 0 || tail[|tail| - 1] == '\n')
  {
    var j := LineEnd(a);
    head, tail := a[..j], a[j + 1..];
    assert a == head + "\n" + tail;
  }

  /** Every line feed ends a line: appending a line to a text that ends in a line feed appends it to the split. */
  lemma {:induction false} SplitAppend(a: string, x: string)
    requires |a| == 0 || a[|a| - 1] == '\n'
    requires '\n' !in x
    ensures SplitLines(a + x + "\n") == SplitLines(a) + [x]
    decreases |a|
  {
    if |a| == 0 {
      assert a + x + "\n" == x + "\n" + "";
      SplitFirst(x, "");
    } else {
      var head, tail := FirstLine(a);
      SplitFirst(head, tail);
      SplitAppend(tail, x);
      Regroup(head, tail, x);
      SplitFirst(head, tail + x + "\n");
    }
  }

  lemma Regroup(head: string, tail: string, x: string)
    ensures head + "\n" + tail + x + "\n" == head + "\n" + (tail + x + "\n")
  {
  }

  lemma LinesEndInLineFeed(cells: seq<string>, k: nat, sep: string, n: nat)
    requires n * k <= |cells|
    ensures var t := Lines(cells, k, sep, n); |t| == 0 || t[|t| - 1] == '\n'
  {
  }

  lemma RowTextAvoidsLineFeed(cells: seq<string>, k: nat, sep: string, i: nat)
    requires (i + 1) * k <= |cells|
    requires NoLineFeed(cells, sep)
    ensures '\n' !in RowText(cells, k, sep, i)
  {
    RowStartBelowEnd(i, k);
    var row := cells[i * k..(i + 1) * k];
    forall j | 0 <= j < |row|
      ensures '\n' !in row[j]
    {
      assert row[j] == cells[i * k + j];
    }
    JoinAvoids(row, sep, '\n');
  }

  /** Appending row `n - 1` to the text of the first `n - 1` rows appends its text to the lines read back. */
  lemma SplitNextRow(cells: seq<string>, k: nat, sep: string, n: nat)
    requires n > 0 && n * k <= |cells|
    requires NoLineFeed(cells, sep)
    ensures RowFits(n - 1, k, |cells|)
    ensures SplitLines(Lines(cells, k, sep, n)) == SplitLines(Lines(cells, k, sep, n - 1)) + [RowText(cells, k, sep, n - 1)]
  {
    RowStartBelowEnd(n - 1, k);
    RowTextAvoidsLineFeed(cells, k, sep, n - 1);
    LinesEndInLineFeed(cells, k, sep, n - 1);
    var prefix := Lines(cells, k, sep, n - 1);
    var text := RowText(cells, k, sep, n - 1);
    assert Lines(cells, k, sep, n) == prefix + (text + "\n");
    assert prefix + (text + "\n") == prefix + text + "\n";
    SplitAppend(prefix, text);
  }

  /** The texts of the first `n` rows, in order. */
  function RowTexts(cells: seq<string>, k: nat, sep: string, n: nat): seq<string>
    requires n * k <= |cells|
  {
    if n == 0 then []
    else
      MulMonotone(n - 1, n, k);
      RowTexts(cells, k, sep, n - 1) + [RowText(cells, k, sep, n - 1)]
  }

  /** Row `i` of the row texts is the text of row `i`. */
  lemma {:induction false} RowTextsIndex(cells: seq<string>, k: nat, sep: string, n: nat, i: nat)
    requires n * k <= |cells| && i < n
    ensures |RowTexts(cells, k, sep, n)| == n
    ensures RowFits(i, k, |cells|)
    ensures RowTexts(cells, k, sep, n)[i] == RowText(cells, k, sep, i)
  {
    MulMonotone(n - 1, n, k);
    if i < n - 1 {
      RowTextsIndex(cells, k, sep, n - 1, i);
    } else if n > 1 {
      RowTextsIndex(cells, k, sep, n - 1, 0);
    }
  }

  /** Read back at its line feeds, the text of `n` rows is the row texts. */
  lemma {:induction false} SplitIsRowTexts(cells: seq<string>, k: nat, sep: string, n: nat)
    requires n * k <= |cells|
    requires NoLineFeed(cells, sep)
    ensures SplitLines(Lines(cells, k, sep, n)) == RowTexts(cells, k, sep, n)
  {
    if n > 0 {
      MulMonotone(n - 1, n, k);
      SplitNextRow(cells, k, sep, n);
      SplitIsRowTexts(cells, k, sep, n - 1);
    }
  }

  /**
   * Read back line by line, the text of `n` rows has exactly `n` lines, and
   * line `i` is the cells `[i·k, (i+1)·k)` joined by the separator, followed
   * by the separator.
   */
  lemma SplitRenderedLines(cells: seq<string>, k: nat, sep: string, n: nat, i: nat)
    requires n * k <= |cells| && i < n
    requires NoLineFeed(cells, sep)
    ensures |SplitLines(Lines(cells, k, sep, n))| == n
    ensures RowFits(i, k, |cells|)
    ensures SplitLines(Lines(cells, k, sep, n))[i] == RowText(cells, k, sep, i)
  {
    SplitIsRowTexts(cells, k, sep, n);
    RowTextsIndex(cells, k, sep, n, i);
  }

  /**
   * Line `i` of `formatMatrix`'s output before trimming, read back at the
   * line feeds: the output is the trimmed text of exactly `rows` lines, and
   * line `i` holds the cells `[i·k, (i+1)·k)`, for `k = cols · channelCount`,
   * in order, each followed by the separator.
   */
  /** Rows of `cols · channelCount` cells: a non-negative width, `rows` of which make up the array. */
  lemma RowWidth(channelCount: int, rows: int, cols: int, len: nat)
    requires len == channelCount * rows * cols && rows > 0
    ensures cols * channelCount >= 0 && rows * (cols * channelCount) == len
  {
    assert rows * (cols * channelCount) == len;
    NonNegativeFactor(rows, cols * channelCount, len);
  }

  /** A row that fits lies between offset 0 and the end. */
  lemma RowBounds(i: nat, k: nat, len: nat)
    requires RowFits(i, k, len)
    ensures 0 <= i * k <= (i + 1) * k <= len
  {
    RowStartBelowEnd(i, k);
  }

  lemma FormatMatrixLines(cells: seq<string>, channelCount: int, rows: int, cols: int, sep: string, i: nat)
    requires |cells| == channelCount * rows * cols
    requires NoLineFeed(cells, sep)
    requires i < rows
    ensures var k := cols * channelCount;
      && k >= 0 && rows * k <= |cells|
      && var text := Lines(cells, k, sep, rows);
      && FormatMatrix(cells, channelCount, rows, cols, sep) == Success(Trim(text))
      && |SplitLines(text)| == rows
      && 0 <= i * k <= (i + 1) * k <= |cells|
      && SplitLines(text)[i] == Join(cells[i * k..(i + 1) * k], sep) + sep
  {
    RowWidth(channelCount, rows, cols, |cells|);
    var k: nat := cols * channelCount;
    SplitRenderedLines(cells, k, sep, rows, i);
    RowBounds(i, k, |cells|);
  }

  lemma NonNegativeFactor(rows: int, k: int, len: nat)
    requires rows > 0 && rows * k == len
    ensures k >= 0
  {
  }

  /** The `separator` parameter's default. */
  const DefaultSeparator: string := ", "

  datatype FormatError = DimensionMismatch(length: nat, rows: int, cols: int)

  /**
   * `formatMatrix(array, channelCount, rows, cols, separator)` over cells that
   * are already rendered as strings. It fails unless the array holds exactly
   * `channelCount * rows * cols` cells; otherwise it is the trimmed text of
   * `rows` lines of `cols * channelCount` cells each.
   */
  function FormatMatrix(cells: seq<string>, channelCount: int, rows: int, cols: int, sep: string)
    : (r: Result<string, FormatError>)
    ensures r.Failure? <==> |cells| != channelCount * rows * cols
    ensures r.Failure? ==> r.error == DimensionMismatch(|cells|, rows, cols)
    ensures r.Success? ==> Trimmed(r.value)
    ensures r.Success? && rows <= 0 ==> r.value == ""
    ensures r.Success? && rows > 0 ==>
      && cols * channelCount >= 0
      && rows * (cols * channelCount) == |cells|
      && r.value == Trim(Lines(cells, cols * channelCount, sep, rows))
  {
    if |cells| != channelCount * rows * cols then
      Failure(DimensionMismatch(|cells|, rows, cols))
    else if rows <= 0 then
      Success(Trim(""))
    else
      RowWidth(channelCount, rows, cols, |cells|);
      Success(Trim(Lines(cells, cols * channelCount, sep, rows)))
  }

  /**
   * The doc comment's 2x2 example, with the default separator: every line
   * keeps its trailing separator, and only the final separator's space and
   * line feed are trimmed away.
   */
  lemma FormatMatrixExample()
    ensures FormatMatrix(["1", "2", "3", "4"], 1, 2, 2, DefaultSeparator) == Success("1, 2, \n3, 4,")
  {
    var cells := ["1", "2", "3", "4"];
    assert cells[0..2] == ["1", "2"];
    assert cells[2..4] == ["3", "4"];
    assert Join(["3", "4"], ", ") == "3, 4" by {
      assert ["3", "4"][1..] == ["4"];
    }
    assert Join(["1", "2"], ", ") == "1, 2" by {
      assert ["1", "2"][1..] == ["2"];
    }
    assert RowLine(cells, 2, ", ", 0) == "1, 2, \n";
    assert RowLine(cells, 2, ", ", 1) == "3, 4, \n";
    assert Lines(cells, 2, ", ", 1) == "1, 2, \n";
    var text := Lines(cells, 2, ", ", 2);
    assert text == "1, 2, \n3, 4, \n";
    assert text == "" + "1, 2, \n3, 4," + " \n";
    TrimUnique("", "1, 2, \n3, 4,", " \n");
  }
}
