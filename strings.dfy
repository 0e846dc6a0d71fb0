/** The Python `str` operations the file browser relies on, over strings of
    code points: ASCII lower-casing, code-point comparison, `rfind`, `lstrip`,
    `split`/`join` on one separator character, and `str()` of a natural number. */
module Strings {

  /** `str.lower()` on one character, folding only ASCII A-Z. */
  function LowerChar(c: char): char {
    if 'A' <= c <= 'Z' then (c as int + 32) as char else c
  }

  /** `str.lower()` with ASCII folding: same length, no upper-case letter left,
      and every other character kept. */
  function Lower(s: string): (r: string)
    ensures |r| == |s|
    ensures forall i :: 0 <= i < |r| ==> !('A' <= r[i] <= 'Z')
    ensures forall i :: 0 <= i < |s| && !('A' <= s[i] <= 'Z') ==> r[i] == s[i]
    ensures forall i :: 0 <= i < |s| && 'A' <= s[i] <= 'Z' ==> r[i] as int == s[i] as int + 32
  {
    seq(|s|, i requires 0 <= i < |s| => LowerChar(s[i]))
  }

  /** A string with no upper-case ASCII letter is its own lower-case form. */
  lemma LowerOfLower(s: string)
    requires forall i :: 0 <= i < |s| ==> !('A' <= s[i] <= 'Z')
    ensures Lower(s) == s
  {
  }

  /** Python's `<` on strings: lexicographic by code point, a proper prefix first. */
  predicate StrLess(a: string, b: string)
  {
    if a == [] then b != []
    else if b == [] then false
    else if a[0] != b[0] then a[0] < b[0]
    else StrLess(a[1..], b[1..])
  }

  lemma {:induction false} StrLessIrreflexive(a: string)
    ensures !StrLess(a, a)
  {
    if a != [] {
      StrLessIrreflexive(a[1..]);
    }
  }

  lemma {:induction false} StrLessTransitive(a: string, b: string, c: string)
    requires StrLess(a, b) && StrLess(b, c)
    ensures StrLess(a, c)
  {
    if a != [] && a[0] == b[0] && b[0] == c[0] {
      StrLessTransitive(a[1..], b[1..], c[1..]);
    }
  }

  /** Any two different strings are ordered one way or the other. */
  lemma {:induction false} StrLessTotal(a: string, b: string)
    requires a != b
    ensures StrLess(a, b) || StrLess(b, a)
  {
    if a != [] && b != [] && a[0] == b[0] {
      assert a == [a[0]] + a[1..] && b == [b[0]] + b[1..];
      StrLessTotal(a[1..], b[1..]);
    }
  }

  /** `s.rfind(c)`: the last index holding `c`, or -1 when there is none. */
  function RFind(s: string, c: char): (r: int)
    ensures -1 <= r < |s|
    ensures r >= 0 ==> s[r] == c
    ensures forall i :: r < i < |s| ==> s[i] != c
  {
    if s == [] then -1
    else if s[|s| - 1] == c then |s| - 1
    else RFind(s[..|s| - 1], c)
  }

  /** `s.lstrip(c)`: what is left after the leading run of `c` is removed. */
  function LStrip(s: string, c: char): (r: string)
    ensures |r| <= |s| && r == s[|s| - |r|..]
    ensures forall i :: 0 <= i < |s| - |r| ==> s[i] == c
    ensures r == [] || r[0] != c
  {
    if s != [] && s[0] == c then LStrip(s[1..], c) else s
  }

  /** `s.split(c)`: the pieces between occurrences of `c`, never an empty list. */
  function SplitOn(s: string, c: char): (parts: seq<string>)
    ensures |parts| >= 1
    ensures forall k :: 0 <= k < |parts| ==> c !in parts[k]
    decreases |s|
  {
    var i := RFind(s, c);
    if i < 0 then [s] else SplitOn(s[..i], c) + [s[i + 1..]]
  }

  /** The last occurrence of `c` in `u + y` lies in `y` when `y` has one, else in `u`. */
  lemma {:induction false} RFindAppend(u: string, y: string, c: char)
    ensures RFind(u + y, c) == if RFind(y, c) >= 0 then |u| + RFind(y, c) else RFind(u, c)
    decreases |y|
  {
    if y == [] {
      assert u + y == u;
    } else if y[|y| - 1] != c {
      assert (u + y)[..|u + y| - 1] == u + y[..|y| - 1];
      RFindAppend(u, y[..|y| - 1], c);
    }
  }

  /** When `y` has no separator, `x + [c] + y` splits into the pieces of `x`
      followed by `y`. */
  lemma SplitOnAtSeparator(x: string, y: string, c: char)
    requires RFind(y, c) < 0
    ensures SplitOn(x + [c] + y, c) == SplitOn(x, c) + [y]
  {
    var s := x + [c] + y;
    RFindAppend(x + [c], y, c);
    RFindAppend(x, [c], c);
    assert s[..|x|] == x && s[|x| + 1..] == y;
  }

  /** When `y` has a separator, the last piece of `x + [c] + y` is the last
      piece of `y`. */
  lemma SplitOnPastSeparator(x: string, y: string, c: char)
    requires RFind(y, c) >= 0
    ensures var i := RFind(y, c);
            SplitOn(x + [c] + y, c) == SplitOn(x + [c] + y[..i], c) + [y[i + 1..]]
  {
    var s := x + [c] + y;
    var i := RFind(y, c);
    RFindAppend(x + [c], y, c);
    assert s[..|x| + 1 + i] == x + [c] + y[..i];
    assert s[|x| + 1 + i + 1..] == y[i + 1..];
  }

  /** Splitting at a separator put between two strings splits each of them. */
  lemma {:induction false} SplitOnConcat(x: string, y: string, c: char)
    ensures SplitOn(x + [c] + y, c) == SplitOn(x, c) + SplitOn(y, c)
    decreases |y|
  {
    var i := RFind(y, c);
    if i < 0 {
      SplitOnAtSeparator(x, y, c);
    } else {
      SplitOnPastSeparator(x, y, c);
      SplitOnConcat(x, y[..i], c);
      assert SplitOn(y, c) == SplitOn(y[..i], c) + [y[i + 1..]];
    }
  }

  /** `c.join(parts)`. */
  function JoinWith(parts: seq<string>, c: char): string
  {
    if |parts| == 0 then ""
    else if |parts| == 1 then parts[0]
    else JoinWith(parts[..|parts| - 1], c) + [c] + parts[|parts| - 1]
  }

  /** `c.join(s.split(c)) == s`. */
  lemma {:induction false} JoinSplit(s: string, c: char)
    ensures JoinWith(SplitOn(s, c), c) == s
    decreases |s|
  {
    var i := RFind(s, c);
    if i >= 0 {
      var init := SplitOn(s[..i], c);
      JoinSplit(s[..i], c);
      assert SplitOn(s, c) == init + [s[i + 1..]];
      assert (init + [s[i + 1..]])[..|init|] == init;
      assert s == s[..i] + [c] + s[i + 1..];
    }
  }

  /** The last occurrence of `c` in `x + [c] + y` is the joining one when `y` has none. */
  lemma RFindJoined(x: string, c: char, y: string)
    requires c !in y
    ensures RFind(x + [c] + y, c) == |x|
  {
    var s := x + [c] + y;
    var r := RFind(s, c);
    assert s[|x|] == c;
  }

  /** `(c.join(parts)).split(c) == parts` when no part holds `c`. */
  lemma {:induction false} SplitJoin(parts: seq<string>, c: char)
    requires |parts| >= 1
    requires forall k :: 0 <= k < |parts| ==> c !in parts[k]
    ensures SplitOn(JoinWith(parts, c), c) == parts
  {
    if |parts| > 1 {
      var init := parts[..|parts| - 1];
      var last := parts[|parts| - 1];
      var x := JoinWith(init, c);
      SplitJoin(init, c);
      RFindJoined(x, c, last);
      var s := x + [c] + last;
      assert s[..|x|] == x;
      assert s[|x| + 1..] == last;
      assert parts == init + [last];
    }
  }

  /** The character of a decimal digit. */
  function DigitChar(d: nat): char
    requires d < 10
  {
    ('0' as int + d) as char
  }

  predicate IsDigits(s: string)
  {
    forall i :: 0 <= i < |s| ==> '0' <= s[i] <= '9'
  }

  /** `str(n)` for a natural number: its decimal digits, without leading zeros. */
  function NatToStr(n: nat): (s: string)
    ensures s != [] && IsDigits(s)
    ensures |s| > 1 ==> s[0] != '0'
  {
    if n < 10 then [DigitChar(n)] else NatToStr(n / 10) + [DigitChar(n % 10)]
  }

  /** The value of a string of decimal digits, the reading that inverts `NatToStr`. */
  function ParseNat(s: string): nat
    requires IsDigits(s)
  {
    if s == [] then 0 else ParseNat(s[..|s| - 1]) * 10 + (s[|s| - 1] as int - '0' as int)
  }

  lemma {:induction false} ParseNatToStr(n: nat)
    ensures ParseNat(NatToStr(n)) == n
  {
    if n >= 10 {
      var s := NatToStr(n);
      ParseNatToStr(n / 10);
      assert s[..|s| - 1] == NatToStr(n / 10);
    }
  }

  /** Different numbers print differently. */
  lemma NatToStrInjective(m: nat, n: nat)
    requires NatToStr(m) == NatToStr(n)
    ensures m == n
  {
    ParseNatToStr(m);
    ParseNatToStr(n);
  }
}
