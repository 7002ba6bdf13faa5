/*
 * The pieces of Rust's `std::fmt` machinery that the bridge's Display and
 * Debug implementations lean on: `{}` of an unsigned integer, `{:?}` of a raw
 * pointer, the `{:<24}` width specifier, and `{:?}` of a `String` (quoted and
 * escaped).  Each comes with the property that makes its output readable
 * back: digits parse back to the number, padding keeps the text, escaping
 * unescapes to the original.
 */
module Fmt {

  datatype Option<T> = None | Some(value: T)

  // ---------------------------------------------------------------------------
  // Digits
  // ---------------------------------------------------------------------------

  /** The digit for `d`, lower-case for the hexadecimal digits a to f. */
  function DigitChar(d: nat): (c: char)
    requires d < 16
  {
    if d < 10 then ('0' as int + d) as char else ('a' as int + d - 10) as char
  }

  /** The value of a digit character; 16 for anything that is not a digit. */
  function DigitValue(c: char): nat
  {
    if '0' <= c <= '9' then c as int - '0' as int
    else if 'a' <= c <= 'f' then c as int - 'a' as int + 10
    else 16
  }

  predicate IsDigit(c: char, base: nat)
  {
    DigitValue(c) < base
  }

  /** `n` written in `base` with the most significant digit first and no leading zeros. */
  function ToBase(n: nat, base: nat): (s: string)
    requires 2 <= base <= 16
    ensures |s| >= 1
    ensures forall i :: 0 <= i < |s| ==> IsDigit(s[i], base)
    ensures n == 0 <==> s == "0"
    ensures n > 0 ==> s[0] != '0'
    decreases n
  {
    if n < base then [DigitChar(n)]
    else
      DivideByBase(n, base);
      ToBase(n / base, base) + [DigitChar(n % base)]
  }

  /** The number a string of digits denotes in `base`, most significant digit first. */
  function FromBase(s: string, base: nat): nat
    requires 2 <= base <= 16
  {
    if s == [] then 0 else FromBase(s[..|s| - 1], base) * base + DigitValue(s[|s| - 1])
  }

  lemma {:induction false} FromBaseToBase(n: nat, base: nat)
    requires 2 <= base <= 16
    ensures FromBase(ToBase(n, base), base) == n
    decreases n
  {
    var s := ToBase(n, base);
    if n >= base {
      DivideByBase(n, base);
      assert s[..|s| - 1] == ToBase(n / base, base);
      FromBaseToBase(n / base, base);
    }
  }

  /** `format!("{}", n)` for an unsigned integer. */
  function Decimal(n: nat): string
  {
    ToBase(n, 10)
  }

  /** Lower-case hexadecimal digits of `n`, as `{:x}` writes them. */
  function LowerHex(n: nat): string
  {
    ToBase(n, 16)
  }

  /** Different numbers are written differently: the decimal text identifies the number. */
  lemma DecimalInjective(a: nat, b: nat)
    requires Decimal(a) == Decimal(b)
    ensures a == b
  {
    FromBaseToBase(a, 10);
    FromBaseToBase(b, 10);
  }

  /**
   * `format!("{:?}", p)` for a raw pointer `p` whose address is `addr`: the
   * address in lower-case hexadecimal after "0x".
   */
  function PointerText(addr: nat): (s: string)
    ensures |s| >= 3 && s[..2] == "0x"
    ensures forall i :: 2 <= i < |s| ==> IsDigit(s[i], 16)
    ensures addr > 0 ==> s[2] != '0'
    ensures FromBase(s[2..], 16) == addr
  {
    FromBaseToBase(addr, 16);
    var hex := LowerHex(addr);
    assert ("0x" + hex)[2..] == hex;
    assert forall i :: 2 <= i < |"0x" + hex| ==> ("0x" + hex)[i] == hex[i - 2];
    "0x" + hex
  }

  /** For instance, the address 16 is written `0x10`. */
  /** A two-digit address is written as its two hexadecimal digits after `0x`. */
  lemma PointerTwoDigits(hi: nat, lo: nat)
    requires 1 <= hi < 16 && lo < 16
    ensures PointerText(16 * hi + lo) == "0x" + [DigitChar(hi), DigitChar(lo)]
  {
    var n := 16 * hi + lo;
    DivideByBase(n, 16);
    assert n / 16 == hi && n % 16 == lo;
    assert ToBase(n, 16) == ToBase(hi, 16) + [DigitChar(lo)];
  }

  // ---------------------------------------------------------------------------
  // Width
  // ---------------------------------------------------------------------------

  function Spaces(n: nat): (s: string)
  {
    seq(n, _ => ' ')
  }

  /**
   * `format!("{:<width$}", s)`: `s` left-aligned, filled with spaces on the
   * right up to `width` characters; a longer `s` is kept whole, never cut.
   */
  function PadRight(s: string, width: nat): (r: string)
    ensures |r| == if |s| < width then width else |s|
    ensures r[..|s|] == s
    ensures forall i :: |s| <= i < |r| ==> r[i] == ' '
  {
    if |s| < width then s + Spaces(width - |s|) else s
  }

  // ---------------------------------------------------------------------------
  // Debug of a string
  // ---------------------------------------------------------------------------

  /** An ASCII control character, which `{:?}` writes as a `\u{..}` escape. */
  predicate IsAsciiControl(c: char)
  {
    c as int < 0x20 || c as int == 0x7f
  }

  /** How `{:?}` writes one character of a `str`. */
  function EscapeChar(c: char): (s: string)
    ensures |s| >= 1
  {
    if c == '\0' then "\\0"
    else if c == '\t' then "\\t"
    else if c == '\r' then "\\r"
    else if c == '\n' then "\\n"
    else if c == '\\' then "\\\\"
    else if c == '"' then "\\\""
    else if IsAsciiControl(c) then "\\u{" + LowerHex(c as int) + "}"
    else [c]
  }

  function Escape(s: string): string
  {
    if s == [] then [] else EscapeChar(s[0]) + Escape(s[1..])
  }

  /** `format!("{:?}", s)` for a `String` `s`: double-quoted, with the escapes above. */
  function Quoted(s: string): (r: string)
  {
    "\"" + Escape(s) + "\""
  }

  /** The first index at or after `from` that holds `c`, or `|s|` when there is none. */
  function IndexOf(s: string, c: char, from: nat): (j: nat)
    requires from <= |s|
    ensures from <= j <= |s|
    ensures j < |s| ==> s[j] == c
    ensures forall i :: from <= i < j ==> s[i] != c
    decreases |s| - from
  {
    if from == |s| || s[from] == c then from else IndexOf(s, c, from + 1)
  }

  function Prepend(c: char, rest: Option<string>): Option<string>
  {
    match rest
    case Some(t) => Some([c] + t)
    case None => None
  }

  /** Reads an escaped body back: the inverse of `Escape`, `None` on a malformed escape. */
  function Unescape(s: string): Option<string>
    decreases |s|
  {
    if s == [] then Some([])
    else if s[0] != '\\' then Prepend(s[0], Unescape(s[1..]))
    else if |s| < 2 then None
    else if s[1] == '0' then Prepend('\0', Unescape(s[2..]))
    else if s[1] == 't' then Prepend('\t', Unescape(s[2..]))
    else if s[1] == 'r' then Prepend('\r', Unescape(s[2..]))
    else if s[1] == 'n' then Prepend('\n', Unescape(s[2..]))
    else if s[1] == '\\' then Prepend('\\', Unescape(s[2..]))
    else if s[1] == '"' then Prepend('"', Unescape(s[2..]))
    else if s[1] == 'u' && |s| >= 3 && s[2] == '{' then
      var j := IndexOf(s, '}', 3);
      if j < |s| && FromBase(s[3..j], 16) < 0xD800 then
        Prepend(FromBase(s[3..j], 16) as char, Unescape(s[j + 1..]))
      else None
    else None
  }

  /** A `\u{..}` escape reads back as the character whose code it spells. */
  lemma UnescapeControl(c: char, rest: string)
    requires IsAsciiControl(c)
    ensures Unescape("\\u{" + LowerHex(c as int) + "}" + rest) == Prepend(c, Unescape(rest))
  {
    var hex := LowerHex(c as int);
    var s := "\\u{" + hex + "}" + rest;
    var close := 3 + |hex|;
    assert s[close] == '}';
    forall i | 3 <= i < close
      ensures s[i] != '}'
    {
      assert s[i] == hex[i - 3];
      assert IsDigit(hex[i - 3], 16);
    }
    assert IndexOf(s, '}', 3) == close;
    assert s[3..close] == hex;
    FromBaseToBase(c as int, 16);
    assert s[close + 1..] == rest;
  }

  lemma UnescapeOneChar(c: char, rest: string)
    ensures Unescape(EscapeChar(c) + rest) == Prepend(c, Unescape(rest))
  {
    var s := EscapeChar(c) + rest;
    if c == '\0' || c == '\t' || c == '\r' || c == '\n' || c == '\\' || c == '"' {
      assert s[2..] == rest;
    } else if IsAsciiControl(c) {
      UnescapeControl(c, rest);
    } else {
      assert s[1..] == rest;
    }
  }

  lemma {:induction false} UnescapeEscape(s: string)
    ensures Unescape(Escape(s)) == Some(s)
    decreases |s|
  {
    if s != [] {
      UnescapeOneChar(s[0], Escape(s[1..]));
      UnescapeEscape(s[1..]);
      assert [s[0]] + s[1..] == s;
    }
  }

  /**
   * The text between the quotes of `Quoted(s)` reads back as `s`: Debug
   * output of a string is never ambiguous, whatever quotes, backslashes or
   * line breaks the string holds.
   */
  lemma QuotedRoundTrip(s: string)
    ensures var q := Quoted(s); |q| >= 2 && q[0] == '"' && q[|q| - 1] == '"' && Unescape(q[1..|q| - 1]) == Some(s)
  {
    var q := Quoted(s);
    assert q[1..|q| - 1] == Escape(s);
    UnescapeEscape(s);
  }

  // ---------------------------------------------------------------------------
  // Helpers: arithmetic and concatenation facts, stated once so that the
  // proofs above need not rediscover them
  // ---------------------------------------------------------------------------

  /** Appending to a text is appending to its last part. */
  lemma AppendAssoc(a: string, b: string, c: string)
    ensures (a + b) + c == a + (b + c)
  {
  }

  /** The facts about `/` and `%` that digit extraction needs. */
  lemma DivideByBase(n: nat, base: nat)
    requires 2 <= base <= n
    ensures 0 < n / base < n
    ensures n % base < base
    ensures (n / base) * base + n % base == n
  {
  }
}
