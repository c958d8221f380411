/**
 * The string primitives the service relies on, with Rust's semantics:
 * `char::is_whitespace`, `str::trim`, `str::split(char)`, `str::starts_with`
 * and lower-casing, plus the decimal rendering used in error messages.
 */
module Text {

  /** Rust's `char::is_whitespace`: the code points of the Unicode White_Space property. */
  predicate IsWhitespace(c: char) {
    var n := c as int;
    || 0x09 <= n <= 0x0D
    || n == 0x20
    || n == 0x85
    || n == 0xA0
    || n == 0x1680
    || 0x2000 <= n <= 0x200A
    || n == 0x2028
    || n == 0x2029
    || n == 0x202F
    || n == 0x205F
    || n == 0x3000
  }

  /** Every character of `s` is whitespace (vacuously true of the empty string). */
  predicate IsBlank(s: string) {
    forall i :: 0 <= i < |s| ==> IsWhitespace(s[i])
  }

  /** Number of whitespace characters at the front of `s`. */
  function LeadingBlanks(s: string): (k: nat)
    ensures k <= |s|
    ensures IsBlank(s[..k])
    ensures k < |s| ==> !IsWhitespace(s[k])
  {
    if |s| == 0 || !IsWhitespace(s[0]) then 0
    else
      var k := 1 + LeadingBlanks(s[1..]);
      assert s[..k] == [s[0]] + s[1..][..k - 1];
      k
  }

  /** Number of whitespace characters at the back of `s`. */
  function TrailingBlanks(s: string): (k: nat)
    ensures k <= |s|
    ensures IsBlank(s[|s| - k..])
    ensures k < |s| ==> !IsWhitespace(s[|s| - 1 - k])
    ensures k == |s| ==> IsBlank(s)
  {
    if |s| == 0 || !IsWhitespace(s[|s| - 1]) then 0
    else
      var front := s[..|s| - 1];
      var k := 1 + TrailingBlanks(front);
      assert s[|s| - k..] == front[|front| - (k - 1)..] + [s[|s| - 1]];
      k
  }

  /** Rust's `str::trim`: `s` without its leading and trailing whitespace. */
  function Trim(s: string): (r: string)
    ensures r == [] <==> IsBlank(s)
    ensures r != [] ==> !IsWhitespace(r[0]) && !IsWhitespace(r[|r| - 1])
    ensures exists a, b :: 0 <= a <= b <= |s| && r == s[a..b] && IsBlank(s[..a]) && IsBlank(s[b..])
  {
    var a := LeadingBlanks(s);
    var t := TrailingBlanks(s[a..]);
    assert s[a..][|s[a..]| - t..] == s[|s| - t..];
    TrimWindow(s, a, t);
    s[a..|s| - t]
  }

  /** The window `Trim` keeps is bounded by blanks and, unless empty, by non-blanks. */
  lemma TrimWindow(s: string, a: nat, t: nat)
    requires a <= |s| && IsBlank(s[..a]) && (a < |s| ==> !IsWhitespace(s[a]))
    requires t <= |s| - a && IsBlank(s[|s| - t..])
    requires t < |s| - a ==> !IsWhitespace(s[|s| - 1 - t])
    requires t == |s| - a ==> IsBlank(s[a..])
    ensures a <= |s| - t
    ensures IsBlank(s[..a]) && IsBlank(s[|s| - t..])
    ensures var r := s[a..|s| - t]; r == [] <==> IsBlank(s)
    ensures var r := s[a..|s| - t]; r != [] ==> !IsWhitespace(r[0]) && !IsWhitespace(r[|r| - 1])
  {
    var rest := s[a..];
    if a == |s| {
      assert s[..a] == s;
    } else {
      assert rest[0] == s[a];
      assert !IsBlank(rest);
      var r := s[a..|s| - t];
      assert r[0] == s[a];
      assert r[|r| - 1] == s[|s| - t - 1];
    }
  }

  /** Rust's `str::starts_with` for a string pattern. */
  predicate StartsWith(s: string, prefix: string) {
    |prefix| <= |s| && s[..|prefix|] == prefix
  }

  /** Position of the first `c` in `s`, or `|s|` when there is none. */
  function IndexOf(s: string, c: char): (k: nat)
    ensures k <= |s|
    ensures c !in s[..k]
    ensures k < |s| ==> s[k] == c
  {
    if |s| == 0 then 0
    else if s[0] == c then 0
    else
      var k := 1 + IndexOf(s[1..], c);
      assert s[..k] == [s[0]] + s[1..][..k - 1];
      k
  }

  /** Rust's `str::split(c)`: the maximal `c`-free pieces between occurrences of `c`. */
  function Split(s: string, c: char): (r: seq<string>)
    ensures |r| >= 1
    ensures forall i :: 0 <= i < |r| ==> c !in r[i]
    decreases |s|
  {
    var k := IndexOf(s, c);
    if k == |s| then
      assert s[..k] == s;
      [s]
    else
      [s[..k]] + Split(s[k + 1..], c)
  }

  /** Joining the pieces of `s` with the separator gives `s` back. */
  lemma {:induction false} JoinSplit(s: string, c: char)
    ensures Join(Split(s, c), c) == s
    decreases |s|
  {
    var k := IndexOf(s, c);
    if k == |s| {
      assert s[..k] == s;
    } else {
      var rest := Split(s[k + 1..], c);
      var parts := [s[..k]] + rest;
      assert Split(s, c) == parts;
      assert parts[1..] == rest;
      assert Join(parts, c) == s[..k] + [c] + Join(rest, c);
      JoinSplit(s[k + 1..], c);
      assert s == s[..k] + [c] + s[k + 1..];
    }
  }

  /** The pieces `parts` joined with the separator `c`; the inverse of `Split`. */
  function Join(parts: seq<string>, c: char): string {
    if |parts| == 0 then []
    else if |parts| == 1 then parts[0]
    else parts[0] + [c] + Join(parts[1..], c)
  }

  /** The first `c` in `a + [c] + b` is the one after `a` when `a` holds none. */
  lemma IndexOfAfter(a: string, b: string, c: char)
    requires c !in a
    ensures IndexOf(a + [c] + b, c) == |a|
  {
    var s := a + [c] + b;
    var k := IndexOf(s, c);
    assert s[..|a|] == a;
    assert s[|a|] == c;
    assert forall j :: 0 <= j < k ==> s[..k][j] == s[j];
    assert forall j :: 0 <= j < |a| ==> s[j] == a[j];
  }

  /** Splitting a string whose first piece is `a` yields `a` and the split of what follows. */
  lemma SplitFirst(a: string, tail: string, c: char)
    requires c !in a
    requires tail == [] || tail[0] == c
    ensures Split(a + tail, c)[0] == a
    ensures tail == [] ==> Split(a + tail, c) == [a]
    ensures tail != [] ==> Split(a + tail, c) == [a] + Split(tail[1..], c)
  {
    if tail == [] {
      assert a + tail == a;
      var k := IndexOf(a, c);
      assert forall j :: 0 <= j < |a| ==> a[j] in a;
    } else {
      assert a + tail == a + [c] + tail[1..];
      IndexOfAfter(a, tail[1..], c);
      var s := a + tail;
      assert s[..|a|] == a;
      assert s[|a| + 1..] == tail[1..];
    }
  }

  /** `Split` undoes `Join` on any non-empty list of separator-free pieces. */
  lemma {:induction false} SplitJoin(parts: seq<string>, c: char)
    requires |parts| >= 1
    requires forall i :: 0 <= i < |parts| ==> c !in parts[i]
    ensures Split(Join(parts, c), c) == parts
    decreases |parts|
  {
    if |parts| == 1 {
      SplitFirst(parts[0], [], c);
      assert parts[0] + [] == parts[0];
    } else {
      var tail := [c] + Join(parts[1..], c);
      assert Join(parts, c) == parts[0] + tail;
      SplitFirst(parts[0], tail, c);
      assert tail[1..] == Join(parts[1..], c);
      SplitJoin(parts[1..], c);
      assert parts == [parts[0]] + parts[1..];
    }
  }

  /** ASCII lower-casing of one character; other characters are unchanged. */
  function LowerChar(c: char): char {
    if 'A' <= c <= 'Z' then (c as int + 32) as char else c
  }

  /** `s` with every ASCII upper-case letter lower-cased. */
  function AsciiLower(s: string): (r: string)
    ensures |r| == |s|
    ensures forall i :: 0 <= i < |s| ==> r[i] == LowerChar(s[i])
  {
    if |s| == 0 then [] else [LowerChar(s[0])] + AsciiLower(s[1..])
  }

  /** The decimal digit for `d`. */
  function Digit(d: nat): char
    requires d < 10
  {
    "0123456789"[d]
  }

  /** Decimal rendering of `n`, as Rust's `Display` for unsigned integers prints it. */
  function Decimal(n: nat): string
    decreases n
  {
    if n < 10 then [Digit(n)] else Decimal(n / 10) + [Digit(n % 10)]
  }
}
