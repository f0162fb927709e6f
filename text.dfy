/** String operations the JavaScript code relies on: whitespace trimming,
    ASCII case folding, substring search, `split(' ')` and `parseInt`. */
module Text {
  import opened Common

  /** The characters of JavaScript's `\s` class, which `trim` and `parseInt` skip. */
  predicate IsSpace(c: char)
  {
    || c == ' ' || c == '\t' || c == '\n' || c == '\r' || c == '\U{B}' || c == '\U{C}'
    || c == '\U{A0}' || c == '\U{1680}' || ('\U{2000}' <= c <= '\U{200A}')
    || c == '\U{2028}' || c == '\U{2029}' || c == '\U{202F}' || c == '\U{205F}'
    || c == '\U{3000}' || c == '\U{FEFF}'
  }

  /** Every character of `s` from index `lo` up to `hi` is whitespace. */
  predicate SpaceBetween(s: string, lo: int, hi: int)
  {
    forall k :: lo <= k < hi ==> 0 <= k < |s| && IsSpace(s[k])
  }

  predicate AllSpace(s: string)
  {
    SpaceBetween(s, 0, |s|)
  }

  /** The first index at or after `i` that does not hold whitespace. */
  function SkipSpace(s: string, i: nat): (j: nat)
    requires i <= |s|
    ensures i <= j <= |s| && SpaceBetween(s, i, j)
    ensures j < |s| ==> !IsSpace(s[j])
    decreases |s| - i
  {
    if i < |s| && IsSpace(s[i]) then SkipSpace(s, i + 1) else i
  }

  /** The end of `s[lo..hi]` once its trailing whitespace is dropped. */
  function SkipSpaceBack(s: string, lo: nat, hi: nat): (j: nat)
    requires lo <= hi <= |s|
    ensures lo <= j <= hi && SpaceBetween(s, j, hi)
    ensures j > lo ==> !IsSpace(s[j - 1])
    decreases hi
  {
    if hi > lo && IsSpace(s[hi - 1]) then SkipSpaceBack(s, lo, hi - 1) else hi
  }

  /** Drops leading whitespace: what is dropped is all whitespace, what is kept
      does not start with whitespace. */
  function TrimStart(s: string): (r: string)
    ensures |r| <= |s| && r == s[|s| - |r|..]
    ensures SpaceBetween(s, 0, |s| - |r|)
    ensures r != [] ==> !IsSpace(r[0])
  {
    s[SkipSpace(s, 0)..]
  }

  /** `String.prototype.trim`: empty exactly for all-whitespace input, and
      otherwise neither starts nor ends with whitespace; what it keeps is a
      slice of the input with only whitespace around it. */
  function Trim(s: string): (r: string)
    ensures |r| <= |s|
    ensures r == [] <==> AllSpace(s)
    ensures r != [] ==> !IsSpace(r[0]) && !IsSpace(r[|r| - 1])
    ensures exists i | 0 <= i <= |s| - |r| ::
      r == s[i..i + |r|] && SpaceBetween(s, 0, i) && SpaceBetween(s, i + |r|, |s|)
  {
    var i := SkipSpace(s, 0);
    var j := SkipSpaceBack(s, i, |s|);
    s[i..j]
  }

  function LowerChar(c: char): char
  {
    if 'A' <= c <= 'Z' then (c as int + 32) as char else c
  }

  function Lower(s: string): string
  {
    seq(|s|, i requires 0 <= i < |s| => LowerChar(s[i]))
  }

  function UpperChar(c: char): char
  {
    if 'a' <= c <= 'z' then (c as int - 32) as char else c
  }

  /** `toUpperCase` on ASCII letters. */
  function Upper(s: string): (r: string)
    ensures |r| == |s|
    ensures (forall i :: 0 <= i < |s| ==> !('a' <= s[i] <= 'z')) ==> r == s
  {
    seq(|s|, i requires 0 <= i < |s| => UpperChar(s[i]))
  }

  predicate OccursAt(hay: string, needle: string, i: int)
  {
    0 <= i <= |hay| - |needle| && hay[i..i + |needle|] == needle
  }

  predicate Contains(hay: string, needle: string)
  {
    exists i | 0 <= i <= |hay| - |needle| :: OccursAt(hay, needle, i)
  }

  /** Case-insensitive substring test of `%needle%` patterns. */
  predicate ContainsIgnoringCase(hay: string, needle: string)
  {
    Contains(Lower(hay), Lower(needle))
  }

  /** `s.split(sep)` for a one-character separator: never empty, and no piece
      holds the separator. */
  function Split(s: string, sep: char): (parts: seq<string>)
    ensures |parts| >= 1
    ensures forall i :: 0 <= i < |parts| ==> sep !in parts[i]
  {
    if s == [] then [[]]
    else
      var rest := Split(s[1..], sep);
      if s[0] == sep then [[]] + rest
      else [[s[0]] + rest[0]] + rest[1..]
  }

  /** `parts.join(sep)`, the inverse of Split. */
  function Join(parts: seq<string>, sep: char): string
    requires |parts| >= 1
  {
    if |parts| == 1 then parts[0] else parts[0] + [sep] + Join(parts[1..], sep)
  }

  lemma {:induction false} JoinSplit(s: string, sep: char)
    ensures Join(Split(s, sep), sep) == s
  {
    if s != [] {
      var rest := Split(s[1..], sep);
      JoinSplit(s[1..], sep);
      if s[0] == sep {
        assert ([[]] + rest)[1..] == rest;
      } else if |rest| > 1 {
        var parts := [[s[0]] + rest[0]] + rest[1..];
        assert parts[1..] == rest[1..];
        assert Join(rest, sep) == rest[0] + [sep] + Join(rest[1..], sep);
        assert s == [s[0]] + s[1..];
      } else {
        assert s == [s[0]] + s[1..];
      }
    }
  }

  /** A separator-free prefix followed by the separator becomes the first piece. */
  lemma {:induction false} SplitAfterWord(a: string, sep: char, b: string)
    requires sep !in a
    ensures Split(a + [sep] + b, sep) == [a] + Split(b, sep)
  {
    var s := a + [sep] + b;
    if a != [] {
      assert s[0] == a[0] && s[1..] == a[1..] + [sep] + b;
      SplitAfterWord(a[1..], sep, b);
      var rest := Split(s[1..], sep);
      assert rest == [a[1..]] + Split(b, sep);
      assert Split(s, sep) == [[a[0]] + rest[0]] + rest[1..];
      assert [a[0]] + a[1..] == a;
    } else {
      assert (a + [sep] + b)[1..] == b;
    }
  }

  /** A separator-free string is a single piece. */
  lemma {:induction false} SplitWord(a: string, sep: char)
    requires sep !in a
    ensures Split(a, sep) == [a]
  {
    if a != [] {
      SplitWord(a[1..], sep);
      assert a == [a[0]] + a[1..];
    }
  }

  predicate IsDigit(c: char) { '0' <= c <= '9' }

  predicate AllDigits(s: string)
  {
    forall i :: 0 <= i < |s| ==> IsDigit(s[i])
  }

  predicate IsHexDigit(c: char) { IsDigit(c) || 'a' <= c <= 'f' || 'A' <= c <= 'F' }

  function HexDigitValue(c: char): nat
    requires IsHexDigit(c)
  {
    if IsDigit(c) then c as int - '0' as int
    else if 'a' <= c <= 'f' then c as int - 'a' as int + 10
    else c as int - 'A' as int + 10
  }

  /** Value of a digit string in the given radix (most significant first). */
  function DigitsValue(ds: string, radix: nat): nat
    requires forall i :: 0 <= i < |ds| ==> IsHexDigit(ds[i])
  {
    if ds == [] then 0
    else radix * DigitsValue(ds[..|ds| - 1], radix) + HexDigitValue(ds[|ds| - 1])
  }

  /** The longest prefix of `s` whose characters satisfy `isDigit`. */
  function DigitPrefix(s: string, hex: bool): (r: string)
    ensures |r| <= |s| && r == s[..|r|]
    ensures forall i :: 0 <= i < |r| ==> (if hex then IsHexDigit(r[i]) else IsDigit(r[i]))
    ensures |r| < |s| ==> !(if hex then IsHexDigit(s[|r|]) else IsDigit(s[|r|]))
  {
    if s != [] && (if hex then IsHexDigit(s[0]) else IsDigit(s[0]))
    then [s[0]] + DigitPrefix(s[1..], hex)
    else []
  }

  /** JavaScript's `parseInt(s)` without a radix: leading whitespace, an
      optional sign, a `0x` prefix switching to radix 16, then the longest
      digit prefix; None stands for NaN (no digit at all). */
  function ParseInt(s: string): (r: Option<int>)
    ensures AllSpace(s) ==> r.None?
    ensures s != [] && '1' <= s[0] <= '9' ==> r.Some? && r.value >= 0
    ensures r.Some? && r.value < 0 ==> TrimStart(s) != [] && TrimStart(s)[0] == '-'
  {
    ParseSigned(TrimStart(s))
  }

  /** An optional sign, then an unsigned number. */
  function ParseSigned(u: string): (r: Option<int>)
    ensures r.Some? && r.value < 0 ==> u != [] && u[0] == '-'
  {
    if u != [] && u[0] == '-' then ParseUnsigned(u[1..], true)
    else if u != [] && u[0] == '+' then ParseUnsigned(u[1..], false)
    else ParseUnsigned(u, false)
  }

  /** A `0x` or `0X` prefix switches to radix 16. */
  function ParseUnsigned(body: string, negative: bool): (r: Option<int>)
    ensures r.Some? && r.value < 0 ==> negative
  {
    if |body| >= 2 && body[0] == '0' && (body[1] == 'x' || body[1] == 'X') then ParseDigits(body[2..], negative, true)
    else ParseDigits(body, negative, false)
  }

  /** The value of the longest digit prefix of `s` in radix 16 or 10, None
      when there is no digit. */
  function ParseDigits(s: string, negative: bool, hex: bool): (r: Option<int>)
    ensures r.None? <==> s == [] || !(if hex then IsHexDigit(s[0]) else IsDigit(s[0]))
  {
    var ds := DigitPrefix(s, hex);
    if ds == [] then None else Some(Signed(negative, DigitsValue(ds, if hex then 16 else 10)))
  }

  function Signed(negative: bool, n: nat): int
  {
    if negative then 0 - n else n
  }

  /** The integer syntax the request validators accept: an optional sign and at
      least one decimal digit, leading zeroes allowed, nothing else. */
  predicate IsIntString(s: string)
  {
    if s != [] && (s[0] == '-' || s[0] == '+') then |s| >= 2 && AllDigits(s[1..])
    else |s| >= 1 && AllDigits(s)
  }

  function IntValue(s: string): int
    requires IsIntString(s)
  {
    if s[0] == '-' then 0 - DigitsValue(s[1..], 10) as int
    else if s[0] == '+' then DigitsValue(s[1..], 10)
    else DigitsValue(s, 10)
  }

  /** The digits of an integer string, after its sign if it has one. */
  function IntDigits(s: string): string
    requires IsIntString(s)
  {
    if s[0] == '-' || s[0] == '+' then s[1..] else s
  }

  /** On every string the validators accept as an integer, `parseInt` reads
      back exactly that integer. */
  lemma ParseIntOfIntString(s: string)
    requires IsIntString(s)
    ensures ParseInt(s) == Some(IntValue(s))
  {
    ParseIntOfDigits(s);
    var n := DigitsValue(IntDigits(s), 10);
    if s[0] == '-' {
      assert IntValue(s) == 0 - n as int;
    } else {
      assert IntValue(s) == n;
    }
  }

  /** `parseInt` on an integer string reads its sign and all its digits. */
  lemma ParseIntOfDigits(s: string)
    requires IsIntString(s)
    ensures ParseInt(s) == Some(Signed(s[0] == '-', DigitsValue(IntDigits(s), 10)))
  {
    var body := IntDigits(s);
    var negative := s[0] == '-';
    IntStringUntrimmed(s);
    assert ParseSigned(s) == ParseUnsigned(body, negative);
    assert AllDigits(body) && |body| >= 1;
    assert IsDigit(body[0]) && (|body| >= 2 ==> IsDigit(body[1]));
    assert ParseUnsigned(body, negative) == ParseDigits(body, negative, false);
    DigitPrefixOfDigits(body);
  }

  /** An integer string starts with no whitespace, so `parseInt` skips nothing. */
  lemma IntStringUntrimmed(s: string)
    requires IsIntString(s)
    ensures TrimStart(s) == s
  {
    assert s[0] == '-' || s[0] == '+' || IsDigit(s[0]);
    assert !IsSpace(s[0]) && SkipSpace(s, 0) == 0;
  }

  /** A string of decimal digits is its own longest digit prefix. */
  lemma DigitPrefixOfDigits(ds: string)
    requires AllDigits(ds)
    ensures DigitPrefix(ds, false) == ds
  {
  }

}
