/**
 * The parts of Rust's `str` that the bot relies on: `find`, `rfind`, `trim`,
 * `len` (a length in UTF-8 bytes), the char boundary that `&s[..n]` needs,
 * `join`, and the decimal rendering of `format!("{}", n)`.
 *
 * A Rust `str` is valid UTF-8, so it is modelled as the sequence of its
 * Unicode scalar values (`string` = `seq<char>`); positions found by searching
 * for ASCII delimiters select the same text whether they are counted in
 * bytes or in chars.
 */
module Str {
  import opened Wrappers

  // ---------------------------------------------------------------------------
  // Searching
  // ---------------------------------------------------------------------------

  /** `p` occurs in `s` starting at position `i`. */
  predicate OccursAt(s: string, p: string, i: int) {
    0 <= i && i + |p| <= |s| && s[i..i + |p|] == p
  }

  /** The first occurrence of `p` in `s` at or after `from`. */
  function FindFrom(s: string, p: string, from: nat): (r: Option<nat>)
    requires from <= |s|
    ensures r.Some? ==> from <= r.value && OccursAt(s, p, r.value)
    ensures r.Some? ==> forall j :: from <= j < r.value ==> !OccursAt(s, p, j)
    ensures r.None? ==> forall j :: from <= j ==> !OccursAt(s, p, j)
    decreases |s| - from
  {
    if from + |p| > |s| then None
    else if s[from..from + |p|] == p then Some(from)
    else FindFrom(s, p, from + 1)
  }

  /** Rust's `s.find(p)` for a string pattern: the first occurrence. */
  function Find(s: string, p: string): (r: Option<nat>)
    ensures r.Some? ==> OccursAt(s, p, r.value) && forall j :: 0 <= j < r.value ==> !OccursAt(s, p, j)
    ensures r.None? ==> forall j :: !OccursAt(s, p, j)
  {
    FindFrom(s, p, 0)
  }

  /** Rust's `s.find(c)` for a char pattern. */
  function FindChar(s: string, c: char): (r: Option<nat>)
    ensures r.Some? ==> r.value < |s| && s[r.value] == c && forall j :: 0 <= j < r.value ==> s[j] != c
    ensures r.None? ==> forall j :: 0 <= j < |s| ==> s[j] != c
    decreases |s|
  {
    if s == [] then None
    else if s[0] == c then Some(0)
    else match FindChar(s[1..], c)
      case None => None
      case Some(i) => Some(i + 1)
  }

  /** Rust's `s.rfind(c)`: the last occurrence. */
  function RFindChar(s: string, c: char): (r: Option<nat>)
    ensures r.Some? ==> r.value < |s| && s[r.value] == c && forall j :: r.value < j < |s| ==> s[j] != c
    ensures r.None? ==> forall j :: 0 <= j < |s| ==> s[j] != c
    decreases |s|
  {
    if s == [] then None
    else if s[|s| - 1] == c then Some(|s| - 1)
    else RFindChar(s[..|s| - 1], c)
  }

  /** A slice of a slice is a slice of the whole. */
  lemma SliceOfSlice(s: string, b: nat, e: nat, i: nat, j: nat)
    requires b <= e <= |s| && i <= j <= e - b
    ensures s[b..e][i..j] == s[b + i..b + j]
  {
    forall k | 0 <= k < j - i ensures s[b..e][i..j][k] == s[b + i..b + j][k] {
      assert s[b..e][i..j][k] == s[b + i + k];
    }
  }

  /** Appending is associative. */
  lemma AppendAssoc<T>(a: seq<T>, b: seq<T>, c: seq<T>)
    ensures a + b + c == a + (b + c)
  {
  }

  /** Appending nothing changes nothing. */
  lemma AppendEmpty<T>(s: seq<T>)
    ensures s + [] == s
  {
  }

  /** A text begins whatever is appended to it. */
  lemma PrefixOfAppend(a: string, b: string)
    ensures a <= a + b
  {
  }

  /** Beginning another text is transitive. */
  lemma PrefixTrans(a: string, b: string, c: string)
    requires a <= b && b <= c
    ensures a <= c
  {
  }

  /** `r` is the slice of `s` that begins at `a`. */
  predicate SliceAt(s: string, r: string, a: int) {
    0 <= a <= a + |r| <= |s| && r == s[a..a + |r|]
  }

  /** A piece of a piece is a piece of the whole, at the sum of the offsets. */
  lemma SliceAtSlice(s: string, t: string, r: string, a: int, b: int)
    requires SliceAt(s, t, a) && SliceAt(t, r, b)
    ensures SliceAt(s, r, a + b)
  {
    SliceOfSlice(s, a, a + |t|, b, b + |r|);
  }

  /** What follows `a` in a text that `u = a + b` begins is `b`. */
  lemma PieceOfPrefix(s: string, u: string, a: string, b: string)
    requires u == a + b && u <= s
    ensures SliceAt(s, b, |a|)
  {
    forall k | 0 <= k < |b| ensures s[|a| + k] == b[k] {
      assert (a + b)[|a| + k] == b[k];
    }
  }

  /** `c` does not occur in `s`. */
  predicate Lacks(s: string, c: char) {
    forall i :: 0 <= i < |s| ==> s[i] != c
  }

  // ---------------------------------------------------------------------------
  // Trimming
  // ---------------------------------------------------------------------------

  /** Rust's `char::is_whitespace`: the characters with the Unicode White_Space property. */
  predicate IsWhitespace(c: char) {
    ('\t' <= c <= '\r') || c == ' ' || c == '\U{0085}' || c == '\U{00A0}' || c == '\U{1680}'
    || ('\U{2000}' <= c <= '\U{200A}') || c == '\U{2028}' || c == '\U{2029}'
    || c == '\U{202F}' || c == '\U{205F}' || c == '\U{3000}'
  }

  /** Every char of `s` is whitespace. */
  predicate AllWhitespace(s: string) {
    forall i :: 0 <= i < |s| ==> IsWhitespace(s[i])
  }

  /** Rust's `trim_start`: what is left after the leading whitespace. */
  function TrimStart(s: string): (r: string)
    ensures |r| <= |s| && r == s[|s| - |r|..]
    ensures AllWhitespace(s[..|s| - |r|])
    ensures r != [] ==> !IsWhitespace(r[0])
    decreases |s|
  {
    if s != [] && IsWhitespace(s[0]) then
      var r := TrimStart(s[1..]);
      assert s[..|s| - |r|][1..] == s[1..][..|s| - 1 - |r|];
      r
    else s
  }

  /** Rust's `trim_end`: what is left before the trailing whitespace. */
  function TrimEnd(s: string): (r: string)
    ensures |r| <= |s| && r == s[..|r|]
    ensures AllWhitespace(s[|r|..])
    ensures r != [] ==> !IsWhitespace(r[|r| - 1])
    decreases |s|
  {
    if s != [] && IsWhitespace(s[|s| - 1]) then
      var r := TrimEnd(s[..|s| - 1]);
      assert s[|r|..][..|s| - 1 - |r|] == s[..|s| - 1][|r|..];
      r
    else s
  }

  /** `r` is the slice of `s` at `a`, and all of `s` around it is whitespace. */
  predicate TrimmedAt(s: string, r: string, a: int) {
    && 0 <= a <= a + |r| <= |s| && r == s[a..a + |r|]
    && AllWhitespace(s[..a]) && AllWhitespace(s[a + |r|..])
  }

  /** Where the trimmed text begins: after the leading whitespace. */
  function TrimOffset(s: string): nat {
    |s| - |TrimStart(s)|
  }

  /**
   * Rust's `trim`: the slice of `s` between its leading and its trailing
   * whitespace, which begins and ends with a non-whitespace char.
   */
  function Trim(s: string): (r: string)
    ensures TrimmedAt(s, r, TrimOffset(s))
    ensures r != [] ==> !IsWhitespace(r[0]) && !IsWhitespace(r[|r| - 1])
  {
    var t := TrimStart(s);
    var r := TrimEnd(t);
    TrimmedBoth(s, t, r);
    r
  }

  /** Trimming the front and then the back leaves a slice framed by whitespace. */
  lemma TrimmedBoth(s: string, t: string, r: string)
    requires |t| <= |s| && t == s[|s| - |t|..]
    requires |r| <= |t| && r == t[..|r|]
    requires AllWhitespace(t[|r|..])
    ensures r == s[|s| - |t|..|s| - |t| + |r|]
    ensures s[|s| - |t| + |r|..] == t[|r|..]
  {
  }

  /** The trimmed text is the piece of `s` that begins at the trim offset. */
  lemma TrimIsPiece(s: string)
    ensures SliceAt(s, Trim(s), TrimOffset(s))
  {
  }

  /** Trimming twice trims no more than trimming once. */
  lemma {:induction false} TrimIdempotent(s: string)
    ensures Trim(Trim(s)) == Trim(s)
  {
    var r := Trim(s);
    TrimOfUnpadded(r);
  }

  /** A string that neither begins nor ends with whitespace is its own trim. */
  lemma TrimOfUnpadded(s: string)
    requires s != [] ==> !IsWhitespace(s[0]) && !IsWhitespace(s[|s| - 1])
    ensures Trim(s) == s
  {
    assert TrimStart(s) == s;
    assert TrimEnd(s) == s;
  }

  /** A line break after an unpadded text is trimmed away. */
  lemma TrimOfLine(s: string)
    requires s != [] && !IsWhitespace(s[0]) && !IsWhitespace(s[|s| - 1])
    ensures Trim(s + "\n") == s
  {
    var line := s + "\n";
    assert line[0] == s[0];
    assert TrimStart(line) == line;
    assert line[..|line| - 1] == s;
    assert TrimEnd(s) == s;
    assert TrimEnd(line) == s;
  }

  // ---------------------------------------------------------------------------
  // Lengths in bytes
  // ---------------------------------------------------------------------------

  /** The number of bytes UTF-8 uses for `c`. */
  function Utf8Width(c: char): (w: nat)
    ensures 1 <= w <= 4
    ensures w == 1 <==> c < '\U{0080}'
  {
    if c < '\U{0080}' then 1
    else if c < '\U{0800}' then 2
    else if c < '\U{10000}' then 3
    else 4
  }

  /** Rust's `s.len()`: the length of `s` in UTF-8 bytes. */
  function ByteLen(s: string): (n: nat)
    ensures |s| <= n <= 4 * |s|
    decreases |s|
  {
    if s == [] then 0 else Utf8Width(s[0]) + ByteLen(s[1..])
  }

  lemma {:induction false} ByteLenAppend(a: string, b: string)
    ensures ByteLen(a + b) == ByteLen(a) + ByteLen(b)
    decreases |a|
  {
    if a != [] {
      assert (a + b)[0] == a[0];
      assert (a + b)[1..] == a[1..] + b;
      ByteLenAppend(a[1..], b);
      assert ByteLen(a + b) == Utf8Width(a[0]) + ByteLen(a[1..] + b);
    } else {
      assert a + b == b;
    }
  }

  /** Byte offsets of char positions grow strictly: each char takes at least one byte. */
  lemma ByteLenPrefixGrows(s: string, j: nat, k: nat)
    requires j <= k <= |s|
    ensures ByteLen(s[..j]) + (k - j) <= ByteLen(s[..k])
  {
    assert s[..k] == s[..j] + s[j..k];
    ByteLenAppend(s[..j], s[j..k]);
  }

  /** A string of ASCII chars has as many bytes as chars. */
  lemma {:induction false} ByteLenAscii(s: string)
    requires forall i :: 0 <= i < |s| ==> s[i] < '\U{0080}'
    ensures ByteLen(s) == |s|
    decreases |s|
  {
    if s != [] {
      ByteLenAscii(s[1..]);
    }
  }

  /** A string whose chars all take three bytes (the CJK block, say) has three bytes per char. */
  lemma {:induction false} ByteLenOfWidth3(s: string)
    requires forall i :: 0 <= i < |s| ==> Utf8Width(s[i]) == 3
    ensures ByteLen(s) == 3 * |s|
    decreases |s|
  {
    if s != [] {
      ByteLenOfWidth3(s[1..]);
    }
  }

  /**
   * The longest char prefix of `s` that fits in `max` bytes, counted in
   * chars: its byte length is Rust's `s.floor_char_boundary(max)`.
   */
  function CharsWithin(s: string, max: nat): (k: nat)
    ensures k <= |s| && ByteLen(s[..k]) <= max
    ensures k < |s| ==> max < ByteLen(s[..k + 1])
    decreases |s|
  {
    if s == [] || Utf8Width(s[0]) > max then
      assert s != [] ==> ByteLen(s[..1]) == Utf8Width(s[0]) by {
        if s != [] { assert s[..1][1..] == []; }
      }
      0
    else
      var k' := CharsWithin(s[1..], max - Utf8Width(s[0]));
      assert s[..k' + 1][1..] == s[1..][..k'];
      assert k' + 1 < |s| ==> s[..k' + 2][1..] == s[1..][..k' + 1];
      k' + 1
  }

  /** Byte offset `n` lies on a char boundary of `s` (Rust's `s.is_char_boundary(n)`). */
  predicate IsCharBoundary(s: string, n: nat) {
    exists k :: 0 <= k <= |s| && ByteLen(s[..k]) == n
  }

  /** `n` is a char boundary exactly when the longest prefix within `n` bytes has `n` bytes. */
  lemma CharBoundaryIsCharsWithin(s: string, n: nat)
    ensures IsCharBoundary(s, n) <==> ByteLen(s[..CharsWithin(s, n)]) == n
  {
    var k0 := CharsWithin(s, n);
    if IsCharBoundary(s, n) {
      var k :| 0 <= k <= |s| && ByteLen(s[..k]) == n;
      if k < k0 {
        ByteLenPrefixGrows(s, k, k0);
      } else if k > k0 {
        ByteLenPrefixGrows(s, k0 + 1, k);
      }
    }
  }

  // ---------------------------------------------------------------------------
  // Joining and splitting lines
  // ---------------------------------------------------------------------------

  /** Rust's `lines.join(sep)` for a one-char separator. */
  function Join(lines: seq<string>, sep: char): (r: string)
    decreases |lines|
  {
    if lines == [] then ""
    else if |lines| == 1 then lines[0]
    else lines[0] + [sep] + Join(lines[1..], sep)
  }

  /** Rust's `s.split(sep)` collected into a sequence. */
  function Split(s: string, sep: char): (r: seq<string>)
    ensures |r| >= 1
    decreases |s|
  {
    match FindChar(s, sep)
    case None => [s]
    case Some(i) => [s[..i]] + Split(s[i + 1..], sep)
  }

  /** Joining lines that do not contain the separator and splitting the result gives the lines back. */
  lemma {:induction false} SplitJoin(lines: seq<string>, sep: char)
    requires lines != []
    requires forall i :: 0 <= i < |lines| ==> Lacks(lines[i], sep)
    ensures Split(Join(lines, sep), sep) == lines
    decreases |lines|
  {
    if |lines| == 1 {
      assert FindChar(lines[0], sep).None?;
    } else {
      var s := Join(lines, sep);
      var l := lines[0];
      assert s == l + [sep] + Join(lines[1..], sep);
      assert s[|l|] == sep;
      assert forall j :: 0 <= j < |l| ==> s[j] == l[j];
      assert FindChar(s, sep) == Some(|l|);
      assert s[..|l|] == l;
      assert s[|l| + 1..] == Join(lines[1..], sep);
      SplitJoin(lines[1..], sep);
    }
  }

  // ---------------------------------------------------------------------------
  // Decimal numbers
  // ---------------------------------------------------------------------------

  predicate IsDigit(c: char) { '0' <= c <= '9' }

  /** `format!("{}", n)` for an unsigned integer: its decimal digits, without leading zeros. */
  function NatToString(n: nat): (r: string)
    ensures r != [] && forall i :: 0 <= i < |r| ==> IsDigit(r[i])
    ensures |r| > 1 ==> r[0] != '0'
  {
    if n < 10 then [Digit(n)] else NatToString(n / 10) + [Digit(n % 10)]
  }

  function Digit(d: nat): (c: char)
    requires d < 10
    ensures IsDigit(c)
  {
    "0123456789"[d]
  }

  /** The number a string of decimal digits denotes. */
  function DecimalValue(s: string): nat
    requires forall i :: 0 <= i < |s| ==> IsDigit(s[i])
  {
    if s == [] then 0 else assert IsDigit(s[|s| - 1]); 10 * DecimalValue(s[..|s| - 1]) + (s[|s| - 1] as int - '0' as int)
  }

  /** Reading back the digits of `n` gives `n`. */
  lemma {:induction false} DecimalRoundTrip(n: nat)
    ensures DecimalValue(NatToString(n)) == n
  {
    if n >= 10 {
      var s := NatToString(n);
      assert s[..|s| - 1] == NatToString(n / 10);
      DecimalRoundTrip(n / 10);
    }
  }

  /** Different numbers are rendered differently. */
  lemma NatToStringInjective(m: nat, n: nat)
    requires NatToString(m) == NatToString(n)
    ensures m == n
  {
    DecimalRoundTrip(m);
    DecimalRoundTrip(n);
  }
}
