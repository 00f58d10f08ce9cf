/** Values and string operations shared by the server and the client models.
    The string functions follow JavaScript's String.prototype semantics where the
    source relies on them (trim, split, includes, number-to-string). */
module Common {

  datatype Option<+T> = None | Some(value: T) {
    function GetOr(default: T): T {
      match this
      case Some(v) => v
      case None => default
    }
  }

  datatype Result<+T, +E> = Ok(value: T) | Err(error: E)

  // ---------------------------------------------------------------------------
  // Whitespace and trim

  /** The code points JavaScript's trim() removes: WhiteSpace and LineTerminator. */
  predicate IsSpace(c: char) {
    var n := c as int;
    (9 <= n <= 13) || n == 0x20 || n == 0xA0 || n == 0x1680 || (0x2000 <= n <= 0x200A)
    || n == 0x2028 || n == 0x2029 || n == 0x202F || n == 0x205F || n == 0x3000 || n == 0xFEFF
  }

  predicate AllSpace(s: string) {
    forall i :: 0 <= i < |s| ==> IsSpace(s[i])
  }

  predicate IsTrimmed(s: string) {
    s == [] || (!IsSpace(s[0]) && !IsSpace(s[|s| - 1]))
  }

  /** Drops leading whitespace: the result is a suffix of s, and only whitespace was dropped. */
  function TrimStart(s: string): (r: string)
    ensures |r| <= |s| && r == s[|s| - |r|..]
    ensures r == [] || !IsSpace(r[0])
    ensures AllSpace(s[..|s| - |r|])
  {
    if s != [] && IsSpace(s[0]) then
      var r := TrimStart(s[1..]);
      assert s[..|s| - |r|] == [s[0]] + s[1..][..|s[1..]| - |r|];
      assert s[1..][|s[1..]| - |r|..] == s[|s| - |r|..];
      r
    else
      s
  }

  /** Drops trailing whitespace: the result is a prefix of s, and only whitespace was dropped. */
  function TrimEnd(s: string): (r: string)
    ensures |r| <= |s| && r == s[..|r|]
    ensures r == [] || !IsSpace(r[|r| - 1])
    ensures AllSpace(s[|r|..])
  {
    if s != [] && IsSpace(s[|s| - 1]) then
      var t := s[..|s| - 1];
      var r := TrimEnd(t);
      assert s[|r|..] == t[|r|..] + [s[|s| - 1]];
      assert t[..|r|] == s[..|r|];
      r
    else
      s
  }

  /** JavaScript's s.trim(). */
  function Trim(s: string): (r: string)
    ensures IsTrimmed(r)
    ensures |r| <= |s|
    ensures r == [] <==> AllSpace(s)
  {
    var t := TrimStart(s);
    var r := TrimEnd(t);
    assert r != [] ==> r[0] == t[0];
    assert AllSpace(s) ==> t == [] by {
      if t != [] {
        assert t[0] == s[|s| - |t|];
      }
    }
    assert r == [] ==> AllSpace(s) by {
      if r == [] {
        assert t == [];
        assert s[..|s|] == s;
      }
    }
    r
  }

  lemma TrimOfTrimmed(s: string)
    requires IsTrimmed(s)
    ensures Trim(s) == s
  {
  }

  /** Whitespace put in front of a trimmed string is removed again by Trim. */
  lemma {:induction false} TrimAfterPadding(pad: string, s: string)
    requires AllSpace(pad) && IsTrimmed(s)
    ensures Trim(pad + s) == s
  {
    if pad == [] {
      assert pad + s == s;
    } else {
      assert (pad + s)[1..] == pad[1..] + s;
      TrimAfterPadding(pad[1..], s);
      assert TrimStart(pad + s) == TrimStart(pad[1..] + s);
    }
  }

  // ---------------------------------------------------------------------------
  // split and join on a single character

  function IndexOf(s: string, c: char): (i: nat)
    requires c in s
    ensures i < |s| && s[i] == c && c !in s[..i]
  {
    if s[0] == c then 0 else 1 + IndexOf(s[1..], c)
  }

  /** JavaScript's s.split(c) for a one-character separator: the pieces between
      the separators, so "" gives [""] and "a;" gives ["a", ""]. */
  function Split(s: string, c: char): (parts: seq<string>)
    ensures |parts| >= 1
    ensures forall k :: 0 <= k < |parts| ==> c !in parts[k]
    ensures c !in s ==> parts == [s]
    decreases |s|
  {
    if c !in s then [s]
    else
      var i := IndexOf(s, c);
      [s[..i]] + Split(s[i + 1..], c)
  }

  /** JavaScript's parts.join(sep) for a non-empty list. */
  function Join(parts: seq<string>, sep: string): string
    requires |parts| >= 1
  {
    if |parts| == 1 then parts[0] else parts[0] + sep + Join(parts[1..], sep)
  }

  lemma JoinCons(head: string, tail: seq<string>, sep: string)
    requires |tail| >= 1
    ensures Join([head] + tail, sep) == head + sep + Join(tail, sep)
  {
    assert ([head] + tail)[1..] == tail;
  }

  /** Joining the pieces of a split gives back the original string. */
  lemma {:induction false} JoinSplit(s: string, c: char)
    ensures Join(Split(s, c), [c]) == s
    decreases |s|
  {
    if c in s {
      var i := IndexOf(s, c);
      var tail := s[i + 1..];
      JoinSplit(tail, c);
      JoinCons(s[..i], Split(tail, c), [c]);
      assert s == s[..i] + [c] + tail;
    }
  }

  /** Splitting a join gives back the pieces, provided no piece holds the separator. */
  lemma {:induction false} SplitJoin(parts: seq<string>, c: char)
    requires |parts| >= 1
    requires forall k :: 0 <= k < |parts| ==> c !in parts[k]
    ensures Split(Join(parts, [c]), c) == parts
  {
    if |parts| > 1 {
      var rest := Join(parts[1..], [c]);
      assert Join(parts, [c]) == parts[0] + [c] + rest;
      FirstSeparator(parts[0], c, rest);
      SplitJoin(parts[1..], c);
    }
  }

  /** In a + [c] + b, with no c in a, the first c is the one after a. */
  lemma FirstSeparator(a: string, c: char, b: string)
    requires c !in a
    ensures var s := a + [c] + b;
      c in s && IndexOf(s, c) == |a| && s[..|a|] == a && s[|a| + 1..] == b
  {
    var s := a + [c] + b;
    assert s[|a|] == c;
    var i := IndexOf(s, c);
    assert forall j :: 0 <= j < |a| ==> s[j] == a[j];
    assert i >= |a|;
  }

  // ---------------------------------------------------------------------------
  // includes and case-insensitive match

  /** JavaScript's s.includes(sub). */
  predicate Contains(s: string, sub: string)
    decreases |s|
  {
    sub <= s || (s != [] && Contains(s[1..], sub))
  }

  lemma {:induction false} ContainsInfix(before: string, sub: string, after: string)
    ensures Contains(before + sub + after, sub)
    decreases |before|
  {
    if before == [] {
      assert before + sub + after == sub + after;
    } else {
      assert (before + sub + after)[1..] == before[1..] + sub + after;
      ContainsInfix(before[1..], sub, after);
    }
  }

  /** A string that contains sub contains every character of sub. */
  lemma {:induction false} ContainsChars(s: string, sub: string, c: char)
    requires Contains(s, sub) && c in sub
    ensures c in s
    decreases |s|
  {
    if sub <= s {
      var k :| 0 <= k < |sub| && sub[k] == c;
      assert s[k] == c;
    } else {
      ContainsChars(s[1..], sub, c);
      assert s[1..] <= s[1..];
      var k :| 0 <= k < |s[1..]| && s[1..][k] == c;
      assert s[k + 1] == c;
    }
  }

  /** ASCII lower-casing; other characters are left as they are. */
  function LowerChar(c: char): char {
    if 'A' <= c <= 'Z' then (c as int + 32) as char else c
  }

  function Lower(s: string): (r: string)
    ensures |r| == |s|
    ensures forall i :: 0 <= i < |s| ==> r[i] == LowerChar(s[i])
  {
    if s == [] then [] else [LowerChar(s[0])] + Lower(s[1..])
  }

  /** An unanchored case-insensitive pattern match, as the regex filter with the 'i'
      option performs it for a pattern without metacharacters. */
  predicate ContainsIgnoreCase(s: string, pattern: string) {
    Contains(Lower(s), Lower(pattern))
  }

  lemma LowerAppend(a: string, b: string)
    ensures Lower(a + b) == Lower(a) + Lower(b)
  {
    assert forall i :: 0 <= i < |a + b| ==> Lower(a + b)[i] == (Lower(a) + Lower(b))[i];
  }

  lemma LowerIdempotent(s: string)
    ensures Lower(Lower(s)) == Lower(s)
  {
    assert forall i :: 0 <= i < |s| ==> Lower(Lower(s))[i] == Lower(s)[i];
  }

  /** A pattern occurring anywhere in s, in any letter case, matches s. */
  lemma ContainsIgnoreCaseInfix(before: string, sub: string, after: string)
    ensures ContainsIgnoreCase(before + sub + after, sub)
  {
    LowerAppend(before + sub, after);
    LowerAppend(before, sub);
    ContainsInfix(Lower(before), Lower(sub), Lower(after));
  }

  /** The letter case of the pattern does not matter. */
  lemma PatternCaseIrrelevant(s: string, pattern: string)
    ensures ContainsIgnoreCase(s, pattern) <==> ContainsIgnoreCase(s, Lower(pattern))
  {
    LowerIdempotent(pattern);
  }

  // ---------------------------------------------------------------------------
  // numbers as text

  function DigitChar(d: nat): char
    requires d < 10
  {
    "0123456789"[d]
  }

  predicate IsDigit(c: char) {
    '0' <= c <= '9'
  }

  function DigitValue(c: char): nat
    requires IsDigit(c)
  {
    c as int - '0' as int
  }

  lemma DigitRoundTrip(d: nat)
    requires d < 10
    ensures IsDigit(DigitChar(d)) && DigitValue(DigitChar(d)) == d
  {
  }

  /** Decimal digits of n, most significant first, without leading zeros. */
  function NatToString(n: nat): (s: string)
    ensures |s| >= 1
    ensures forall i :: 0 <= i < |s| ==> IsDigit(s[i])
    decreases n
  {
    DigitRoundTrip(n % 10);
    if n < 10 then [DigitChar(n)] else NatToString(n / 10) + [DigitChar(n % 10)]
  }

  /** The text JavaScript gives an integral number: an optional '-' then the digits. */
  function IntToString(i: int): string {
    if i < 0 then "-" + NatToString(-i) else NatToString(i)
  }

  /** The value of a non-empty string of digits. */
  function DigitsValue(s: string): nat
    requires forall i :: 0 <= i < |s| ==> IsDigit(s[i])
  {
    if s == [] then 0 else DigitsValue(s[..|s| - 1]) * 10 + DigitValue(s[|s| - 1])
  }

  lemma {:induction false} NatToStringValue(n: nat)
    ensures DigitsValue(NatToString(n)) == n
    decreases n
  {
    var s := NatToString(n);
    DigitRoundTrip(n % 10);
    if n >= 10 {
      NatToStringValue(n / 10);
      assert s[..|s| - 1] == NatToString(n / 10);
    }
  }

  /** The length of the leading run of digits of s. */
  function DigitRun(s: string): (k: nat)
    ensures k <= |s|
    ensures forall i :: 0 <= i < k ==> IsDigit(s[i])
    ensures k < |s| ==> !IsDigit(s[k])
  {
    if s != [] && IsDigit(s[0]) then 1 + DigitRun(s[1..]) else 0
  }

  /** JavaScript's parseInt(s) on the text of an HTML number input: leading
      whitespace, an optional sign, then the longest run of digits; None stands for
      NaN (no digit at all). Called without a radix, parseInt reads a "0x" prefix as
      hexadecimal; a number input never holds such text, and this function does not
      model it. */
  function ParseInt(s: string): (r: Option<int>)
    ensures r.Some? ==> TrimStart(s) != []
  {
    ParseSigned(TrimStart(s))
  }

  function ParseSigned(t: string): Option<int> {
    if t != [] && t[0] == '-' then
      match ParseDigits(t[1..])
      case Some(v) => Some(-v)
      case None => None
    else if t != [] && t[0] == '+' then ParseDigits(t[1..])
    else ParseDigits(t)
  }

  /** The value of the leading run of digits, None when there is none. */
  function ParseDigits(b: string): Option<int> {
    var k := DigitRun(b);
    if k == 0 then None else Some(DigitsValue(b[..k]))
  }

  /** parseInt reads back what number-to-string wrote. */
  lemma ParseIntOfIntToString(i: int)
    ensures ParseInt(IntToString(i)) == Some(i)
  {
    var n: nat := if i < 0 then -i else i;
    var digits := NatToString(n);
    ParseDigitsOfNatToString(n);
    if i < 0 {
      NoSpaceBeforeDigits("-", digits);
      assert ("-" + digits)[1..] == digits;
    } else {
      NoSpaceBeforeDigits("", digits);
      assert "" + digits == digits;
    }
  }

  lemma ParseDigitsOfNatToString(n: nat)
    ensures ParseDigits(NatToString(n)) == Some(n)
  {
    var digits := NatToString(n);
    NatToStringValue(n);
    DigitRunAll(digits);
    assert digits[..|digits|] == digits;
  }

  lemma NoSpaceBeforeDigits(sign: string, digits: string)
    requires sign == "" || sign == "-"
    requires |digits| >= 1 && forall i :: 0 <= i < |digits| ==> IsDigit(digits[i])
    ensures TrimStart(sign + digits) == sign + digits
    ensures (sign + digits)[0] == '-' <==> sign == "-"
    ensures (sign + digits)[0] != '+'
  {
    assert IsDigit(digits[0]);
  }

  lemma {:induction false} DigitRunAll(s: string)
    requires forall i :: 0 <= i < |s| ==> IsDigit(s[i])
    ensures DigitRun(s) == |s|
  {
    if s != [] {
      DigitRunAll(s[1..]);
    }
  }
}
