/**
 * The string operations the source relies on (`startsWith`, SQL `LIKE 'x%'`,
 * `replace(/\./g, '')`, `trim`, `parseInt`, `toUpperCase`), over `seq<char>`.
 */
module Text {
  import opened Wrappers

  /** `s.startsWith(prefix)`; SQL `s LIKE 'prefix%'` is read the same way (case-sensitive, no `_` wildcard). */
  predicate StartsWith(s: string, prefix: string) {
    prefix <= s
  }

  lemma StartsWithTransitive(a: string, b: string, c: string)
    requires StartsWith(a, b) && StartsWith(b, c)
    ensures StartsWith(a, c)
  {
  }

  /** `s.replace(/\./g, '')`: the flat form of a dotted code. */
  function StripDots(s: string): (r: string)
    ensures '.' !in r
    ensures |r| <= |s|
    ensures '.' !in s ==> r == s
  {
    if s == [] then []
    else (if s[0] == '.' then [] else [s[0]]) + StripDots(s[1..])
  }

  lemma {:induction false} StripDotsAppend(a: string, b: string)
    ensures StripDots(a + b) == StripDots(a) + StripDots(b)
  {
    if a == [] {
      assert a + b == b;
    } else {
      var h := if a[0] == '.' then [] else [a[0]];
      assert (a + b)[0] == a[0];
      assert (a + b)[1..] == a[1..] + b;
      calc {
        StripDots(a + b);
        h + StripDots(a[1..] + b);
        { StripDotsAppend(a[1..], b); }
        h + (StripDots(a[1..]) + StripDots(b));
        (h + StripDots(a[1..])) + StripDots(b);
        StripDots(a) + StripDots(b);
      }
    }
  }

  /** Number of occurrences of `c` in `s` (`(s.match(/c/g) || []).length`). */
  function CountChar(s: string, c: char): (n: nat)
    ensures n <= |s|
    ensures n == 0 <==> c !in s
  {
    if s == [] then 0 else (if s[0] == c then 1 else 0) + CountChar(s[1..], c)
  }

  lemma {:induction false} CountCharAppend(a: string, b: string, c: char)
    ensures CountChar(a + b, c) == CountChar(a, c) + CountChar(b, c)
  {
    if a == [] {
      assert a + b == b;
    } else {
      assert (a + b)[1..] == a[1..] + b;
      CountCharAppend(a[1..], b, c);
    }
  }

  /** The white space `trim` removes, restricted to ASCII. */
  predicate IsSpace(c: char) {
    c == ' ' || c == '\t' || c == '\n' || c == '\r' || c == '\U{0B}' || c == '\U{0C}'
  }

  /** The number of white-space characters `s` starts with. */
  function LeadingSpaces(s: string): (n: nat)
    ensures n <= |s|
    ensures forall k :: 0 <= k < n ==> IsSpace(s[k])
    ensures n < |s| ==> !IsSpace(s[n])
  {
    if s != [] && IsSpace(s[0]) then 1 + LeadingSpaces(s[1..]) else 0
  }

  /** The number of white-space characters `s` ends with. */
  function TrailingSpaces(s: string): (n: nat)
    ensures n <= |s|
    ensures forall k :: |s| - n <= k < |s| ==> IsSpace(s[k])
    ensures n < |s| ==> !IsSpace(s[|s| - 1 - n])
  {
    if s != [] && IsSpace(s[|s| - 1]) then 1 + TrailingSpaces(s[..|s| - 1]) else 0
  }

  /** `s.trimStart()`. */
  function TrimStart(s: string): string {
    s[LeadingSpaces(s)..]
  }

  /** `s.trimEnd()`. */
  function TrimEnd(s: string): string {
    s[..|s| - TrailingSpaces(s)]
  }

  /** `s.trim()`: `s` without its leading and trailing white space. */
  function Trim(s: string): (r: string)
    ensures |r| <= |s|
    ensures r != [] ==> !IsSpace(r[0]) && !IsSpace(r[|r| - 1])
  {
    TrimEnd(TrimStart(s))
  }

  /** `v?.trim() || ''`: an absent value, or one of white space only, reads as `''`. */
  function TrimOrEmpty(v: Option<string>): (t: string)
    ensures Trimmed(t)
  {
    Trim(v.GetOr(""))
  }

  /**
   * What `Trim` removes is white space at either end, and what it keeps is
   * the slice in between, which starts and ends with something else.
   */
  lemma TrimIsMiddleSlice(s: string)
    ensures var r := Trim(s); var i := LeadingSpaces(s);
      && i + |r| <= |s| && r == s[i..i + |r|]
      && (forall k :: 0 <= k < i ==> IsSpace(s[k]))
      && (forall k :: i + |r| <= k < |s| ==> IsSpace(s[k]))
  {
    var i := LeadingSpaces(s);
    var t := s[i..];
    var r := t[..|t| - TrailingSpaces(t)];
    assert Trim(s) == r;
    MiddleSlice(s, t, r, i);
  }

  /** A prefix `r` of the suffix `t = s[i..]` is a middle slice of `s`; what follows it in `t` follows it in `s`. */
  lemma MiddleSlice(s: string, t: string, r: string, i: nat)
    requires i <= |s| && t == s[i..] && |r| <= |t| && r == t[..|r|]
    requires forall k :: |r| <= k < |t| ==> IsSpace(t[k])
    ensures i + |r| <= |s| && r == s[i..i + |r|]
    ensures forall k :: i + |r| <= k < |s| ==> IsSpace(s[k])
  {
    forall k | i + |r| <= k < |s| ensures IsSpace(s[k]) {
      assert s[k] == t[k - i];
    }
  }

  predicate IsDigit(c: char) {
    '0' <= c <= '9'
  }

  predicate AllDigits(s: string) {
    forall k :: 0 <= k < |s| ==> IsDigit(s[k])
  }

  function DigitValue(c: char): (d: nat)
    requires IsDigit(c)
    ensures d < 10
  {
    (c as int) - ('0' as int)
  }

  function DigitChar(d: nat): (c: char)
    requires d < 10
    ensures IsDigit(c) && DigitValue(c) == d
  {
    ('0' as int + d) as char
  }

  /** The longest prefix of `s` made of decimal digits. */
  function DigitPrefix(s: string): (r: string)
    ensures r <= s && AllDigits(r)
    ensures |r| < |s| ==> !IsDigit(s[|r|])
  {
    if s != [] && IsDigit(s[0]) then [s[0]] + DigitPrefix(s[1..]) else []
  }

  /** The number a digit string denotes in base ten. */
  function DigitsValue(d: string): nat
    requires AllDigits(d)
  {
    if d == [] then 0 else DigitsValue(d[..|d| - 1]) * 10 + DigitValue(d[|d| - 1])
  }

  predicate IsHexDigit(c: char) {
    IsDigit(c) || 'a' <= c <= 'f' || 'A' <= c <= 'F'
  }

  predicate AllHexDigits(s: string) {
    forall k :: 0 <= k < |s| ==> IsHexDigit(s[k])
  }

  function HexDigitValue(c: char): (d: nat)
    requires IsHexDigit(c)
    ensures d < 16
  {
    if IsDigit(c) then DigitValue(c)
    else if 'a' <= c <= 'f' then (c as int) - ('a' as int) + 10
    else (c as int) - ('A' as int) + 10
  }

  /** The longest prefix of `s` made of hexadecimal digits. */
  function HexPrefix(s: string): (r: string)
    ensures r <= s && AllHexDigits(r)
    ensures |r| < |s| ==> !IsHexDigit(s[|r|])
  {
    if s != [] && IsHexDigit(s[0]) then [s[0]] + HexPrefix(s[1..]) else []
  }

  /** The number a hexadecimal digit string denotes. */
  function HexValue(d: string): nat
    requires AllHexDigits(d)
  {
    if d == [] then 0 else HexValue(d[..|d| - 1]) * 16 + HexDigitValue(d[|d| - 1])
  }

  /** A `0x` or `0X` prefix, which makes `parseInt` without a radix read base sixteen. */
  predicate HasHexPrefix(s: string) {
    |s| >= 2 && s[0] == '0' && (s[1] == 'x' || s[1] == 'X')
  }

  /**
   * `parseInt(s)` without a radix: leading white space, an optional sign, then
   * the longest run of digits, hexadecimal after a `0x`/`0X` prefix and decimal
   * otherwise; `None` stands for NaN (no digit at all).
   */
  function ParseInt(s: string): Option<int> {
    var t := TrimStart(s);
    var signed := |t| > 0 && (t[0] == '-' || t[0] == '+');
    var body := if signed then t[1..] else t;
    var magnitude :=
      if HasHexPrefix(body) then
        var d := HexPrefix(body[2..]);
        if d == [] then None else Some(HexValue(d))
      else
        var d := DigitPrefix(body);
        if d == [] then None else Some(DigitsValue(d));
    if magnitude.None? then None
    else if signed && t[0] == '-' then Some(-(magnitude.value as int))
    else Some(magnitude.value as int)
  }

  /** `parseInt(s) || 0`: NaN becomes 0. */
  function ParseIntOrZero(s: string): int {
    ParseInt(s).GetOr(0)
  }

  /** `n.toString()` for a natural number, the partner of `ParseInt`. */
  function NatToString(n: nat): (r: string)
    ensures r != [] && AllDigits(r)
  {
    if n < 10 then [DigitChar(n)] else NatToString(n / 10) + [DigitChar(n % 10)]
  }

  lemma {:induction false} DigitsValueOfNatToString(n: nat)
    ensures DigitsValue(NatToString(n)) == n
  {
    if n >= 10 {
      var s := NatToString(n);
      assert s[..|s| - 1] == NatToString(n / 10);
      DigitsValueOfNatToString(n / 10);
    }
  }

  lemma {:induction false} DigitPrefixOfDigits(d: string, rest: string)
    requires AllDigits(d)
    requires rest == [] || !IsDigit(rest[0])
    ensures DigitPrefix(d + rest) == d
  {
    if d == [] {
      assert d + rest == rest;
    } else {
      assert (d + rest)[1..] == d[1..] + rest;
      DigitPrefixOfDigits(d[1..], rest);
      assert [d[0]] + d[1..] == d;
    }
  }

  /**
   * `parseInt` reads back what `toString` wrote, and stops at the first
   * character that is not a digit (an `x` after a lone `0` would start a hex prefix).
   */
  lemma ParseIntOfNatToString(n: nat, rest: string)
    requires rest == [] || (!IsDigit(rest[0]) && rest[0] != 'x' && rest[0] != 'X')
    ensures ParseInt(NatToString(n) + rest) == Some(n)
  {
    var d := NatToString(n);
    var m := d + rest;
    assert m[0] == d[0] && IsDigit(m[0]);
    assert !IsSpace(m[0]) && m[0] != '-' && m[0] != '+';
    assert TrimStart(m) == m;
    DigitPrefixOfDigits(d, rest);
    DigitsValueOfNatToString(n);
  }

  /** The same with a minus sign in front. */
  lemma ParseIntOfNegative(n: nat, rest: string)
    requires rest == [] || (!IsDigit(rest[0]) && rest[0] != 'x' && rest[0] != 'X')
    ensures ParseInt("-" + NatToString(n) + rest) == Some(-(n as int))
  {
    var d := NatToString(n);
    var body := d + rest;
    var m := "-" + d + rest;
    assert m == ['-'] + body;
    assert !IsSpace(m[0]);
    assert TrimStart(m) == m;
    assert m[1..] == body;
    DigitPrefixOfDigits(d, rest);
    assert DigitPrefix(body) == d;
    DigitsValueOfNatToString(n);
  }

  lemma {:induction false} HexPrefixOfHexDigits(d: string, rest: string)
    requires AllHexDigits(d)
    requires rest == [] || !IsHexDigit(rest[0])
    ensures HexPrefix(d + rest) == d
  {
    if d == [] {
      assert d + rest == rest;
    } else {
      assert (d + rest)[1..] == d[1..] + rest;
      HexPrefixOfHexDigits(d[1..], rest);
      assert [d[0]] + d[1..] == d;
    }
  }

  /** After `0x`, `parseInt` reads hexadecimal digits; a bare `0x` is NaN. */
  lemma ParseIntOfHex(d: string, rest: string)
    requires AllHexDigits(d)
    requires rest == [] || !IsHexDigit(rest[0])
    ensures ParseInt("0x" + d + rest) == if d == [] then None else Some(HexValue(d))
  {
    var m := "0x" + d + rest;
    assert !IsSpace(m[0]) && m[0] != '-' && m[0] != '+';
    assert TrimStart(m) == m;
    assert HasHexPrefix(m);
    assert m[2..] == d + rest;
    HexPrefixOfHexDigits(d, rest);
  }

  /** A string without any digit parses to NaN. */
  lemma ParseIntNoDigits(s: string)
    requires forall k :: 0 <= k < |s| ==> !IsDigit(s[k])
    ensures ParseInt(s) == None
  {
    var t := TrimStart(s);
    assert t == s[|s| - |t|..];
    if |t| > 1 {
      assert t[1..][0] == s[|s| - |t| + 1];
    }
  }

  /** ASCII `toUpperCase`. */
  function ToUpperAscii(s: string): (r: string)
    ensures |r| == |s|
    ensures forall k :: 0 <= k < |s| ==> r[k] == if 'a' <= s[k] <= 'z' then (s[k] as int - 32) as char else s[k]
  {
    if s == [] then []
    else [if 'a' <= s[0] <= 'z' then (s[0] as int - 32) as char else s[0]] + ToUpperAscii(s[1..])
  }

  /** Nothing for `trim` to remove. */
  predicate Trimmed(s: string) {
    s == [] || (!IsSpace(s[0]) && !IsSpace(s[|s| - 1]))
  }

  /** `trim` leaves a trimmed string alone, so trimming twice is trimming once. */
  lemma TrimIdempotent(s: string)
    ensures Trimmed(Trim(s))
    ensures Trimmed(s) ==> Trim(s) == s
    ensures Trim(Trim(s)) == Trim(s)
  {
    TrimOfTrimmed(s);
    TrimOfTrimmed(Trim(s));
  }

  lemma TrimOfTrimmed(s: string)
    ensures Trimmed(s) ==> Trim(s) == s
  {
    if Trimmed(s) && s != [] {
      assert TrimStart(s) == s;
      assert TrimEnd(s) == s;
    }
  }

  /** `parseInt(n.toString()) || 0` is n. */
  lemma ParseIntOrZeroOfNatToString(n: nat)
    ensures ParseIntOrZero(NatToString(n)) == n
  {
    assert NatToString(n) + [] == NatToString(n);
    ParseIntOfNatToString(n, []);
  }

  /** `s.split(sep)`: the pieces between the separators, so `""` splits into `[""]`. */
  function Split(s: string, sep: char): (parts: seq<string>)
    ensures |parts| >= 1
  {
    if s == [] then [[]]
    else
      var init := Split(s[..|s| - 1], sep);
      var c := s[|s| - 1];
      if c == sep then init + [[]]
      else init[..|init| - 1] + [init[|init| - 1] + [c]]
  }

  /** `parts.join(sep)`; `[].join(sep)` is `""`. */
  function Join(parts: seq<string>, sep: char): string {
    if parts == [] then []
    else if |parts| == 1 then parts[0]
    else Join(parts[..|parts| - 1], sep) + [sep] + parts[|parts| - 1]
  }

  /** There is one piece more than there are separators, and no piece holds one. */
  lemma {:induction false} SplitShape(s: string, sep: char)
    ensures |Split(s, sep)| == CountChar(s, sep) + 1
    ensures forall k :: 0 <= k < |Split(s, sep)| ==> sep !in Split(s, sep)[k]
  {
    if s != [] {
      var init, c := s[..|s| - 1], s[|s| - 1];
      assert s == init + [c];
      SplitShape(init, sep);
      CountCharAppend(init, [c], sep);
    }
  }

  /** Joining the pieces with the separator gives the string back. */
  lemma {:induction false} JoinSplit(s: string, sep: char)
    ensures Join(Split(s, sep), sep) == s
    decreases |s|, 1
  {
    if s != [] {
      var init, c := s[..|s| - 1], s[|s| - 1];
      JoinSplitSnoc(init, c, sep);
      assert s == init + [c];
    }
  }

  /** `JoinSplit` for a string written as its prefix and last character. */
  lemma {:induction false} JoinSplitSnoc(init: string, c: char, sep: char)
    ensures Join(Split(init + [c], sep), sep) == init + [c]
    decreases |init| + 1, 0
  {
    JoinSplit(init, sep);
    SplitSnoc(init, c, sep);
    JoinSnoc(Split(init, sep), c, sep);
  }

  /** One more character either opens a new piece or extends the last one. */
  lemma SplitSnoc(s: string, c: char, sep: char)
    ensures var p := Split(s, sep);
      Split(s + [c], sep) == if c == sep then p + [[]] else p[..|p| - 1] + [p[|p| - 1] + [c]]
  {
    assert (s + [c])[..|s|] == s;
  }

  /** The joined text of the pieces after `SplitSnoc` ends in that character. */
  lemma JoinSnoc(p: seq<string>, c: char, sep: char)
    requires p != []
    ensures Join(if c == sep then p + [[]] else p[..|p| - 1] + [p[|p| - 1] + [c]], sep) == Join(p, sep) + [c]
  {
    if c == sep {
      var q := p + [[]];
      assert q[..|q| - 1] == p;
    } else {
      JoinAppendToLast(p, [c], sep);
    }
  }

  lemma JoinAppendToLast(p: seq<string>, t: string, sep: char)
    requires p != []
    ensures Join(p[..|p| - 1] + [p[|p| - 1] + t], sep) == Join(p, sep) + t
  {
    var q := p[..|p| - 1] + [p[|p| - 1] + t];
    if |p| > 1 {
      assert q[..|q| - 1] == p[..|p| - 1];
    }
  }

  /** Joining separator-free pieces puts one separator between each two. */
  lemma {:induction false} JoinCount(parts: seq<string>, sep: char)
    requires parts != []
    requires forall k :: 0 <= k < |parts| ==> sep !in parts[k]
    ensures CountChar(Join(parts, sep), sep) == |parts| - 1
  {
    if |parts| > 1 {
      var init := parts[..|parts| - 1];
      JoinCount(init, sep);
      CountCharAppend(Join(init, sep), [sep], sep);
      CountCharAppend(Join(init, sep) + [sep], parts[|parts| - 1], sep);
    }
  }
}
