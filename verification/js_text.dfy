/** The few JavaScript string primitives the layout scripts rely on:
    `String.prototype.trim`, `toLowerCase`, `split` on one separator and
    `parseInt(s, 16)`, written out over `seq<char>`. */
module JsText {
  import opened Wrappers

  /** ECMAScript WhiteSpace and LineTerminator code points: what `trim`
      removes and what `parseInt` skips at the front. */
  predicate IsWhiteSpace(c: char) {
    var n := c as int;
    n == 0x09 || n == 0x0A || n == 0x0B || n == 0x0C || n == 0x0D || n == 0x20
    || n == 0xA0 || n == 0x1680 || (0x2000 <= n <= 0x200A) || n == 0x2028
    || n == 0x2029 || n == 0x202F || n == 0x205F || n == 0x3000 || n == 0xFEFF
  }

  /** The characters a regular-expression `.` does not match. */
  predicate IsLineTerminator(c: char) {
    c == '\n' || c == '\r' || c as int == 0x2028 || c as int == 0x2029
  }

  predicate AllWhiteSpace(s: string) {
    forall i :: 0 <= i < |s| ==> IsWhiteSpace(s[i])
  }

  /** No white space at either end. */
  predicate Tight(s: string) {
    s == [] || (!IsWhiteSpace(s[0]) && !IsWhiteSpace(s[|s| - 1]))
  }

  /** Length of the white-space run at the front of `s`. */
  function LeadingSpace(s: string): (n: nat)
    ensures n <= |s|
    ensures AllWhiteSpace(s[..n])
    ensures n < |s| ==> !IsWhiteSpace(s[n])
  {
    if s == [] || !IsWhiteSpace(s[0]) then 0 else 1 + LeadingSpace(s[1..])
  }

  /** `s.trim()`: `s` without its leading and trailing white space. */
  function Trim(s: string): (r: string)
    ensures |r| <= |s| && Tight(r)
  {
    if s != [] && IsWhiteSpace(s[0]) then Trim(s[1..])
    else if s != [] && IsWhiteSpace(s[|s| - 1]) then Trim(s[..|s| - 1])
    else s
  }

  /** Trim undoes padding: white space on either side of a string that has
      none at its ends is exactly what trim removes. */
  lemma {:induction false} TrimPadded(w1: string, s: string, w2: string)
    requires AllWhiteSpace(w1) && AllWhiteSpace(w2) && Tight(s)
    ensures Trim(w1 + s + w2) == s
    decreases |w1| + |w2|
  {
    var x := w1 + s + w2;
    if w1 != [] {
      assert x[0] == w1[0];
      assert x[1..] == w1[1..] + s + w2;
      TrimPadded(w1[1..], s, w2);
    } else if w2 != [] {
      assert x == s + w2;
      if s == [] {
        assert x[0] == w2[0];
        assert x[1..] == [] + [] + w2[1..];
        TrimPadded([], [], w2[1..]);
      } else {
        assert x[0] == s[0];
        assert x[|x| - 1] == w2[|w2| - 1];
        assert x[..|x| - 1] == [] + s + w2[..|w2| - 1];
        TrimPadded([], s, w2[..|w2| - 1]);
      }
    } else {
      assert x == s;
    }
  }

  // ---------------------------------------------------------------- case

  predicate IsAsciiUpper(c: char) { 'A' <= c <= 'Z' }

  /** ASCII lower-casing of one character. */
  function LowerChar(c: char): (d: char)
    ensures !IsAsciiUpper(d)
    ensures IsAsciiUpper(c) ==> d as int == c as int + 32
    ensures !IsAsciiUpper(c) ==> d == c
  {
    if IsAsciiUpper(c) then (c as int + 32) as char else c
  }

  predicate HasUpper(s: string) {
    exists i :: 0 <= i < |s| && IsAsciiUpper(s[i])
  }

  /** `s.toLowerCase()`, restricted to the ASCII letters. */
  function ToLower(s: string): (r: string)
    ensures |r| == |s| && !HasUpper(r)
    ensures forall i :: 0 <= i < |s| ==> LowerChar(r[i]) == LowerChar(s[i])
  {
    seq(|s|, i requires 0 <= i < |s| => LowerChar(s[i]))
  }

  /** Lower-casing is idempotent and leaves lower-case text alone. */
  lemma ToLowerOfLower(s: string)
    requires !HasUpper(s)
    ensures ToLower(s) == s
  {
    assert forall i :: 0 <= i < |s| ==> ToLower(s)[i] == s[i];
  }

  // ---------------------------------------------------------------- split

  /** `s.split(sep)` for a one-character separator: the pieces between
      separators, empty pieces included; never an empty list. */
  function Split(s: string, sep: char): (parts: seq<string>)
    ensures |parts| >= 1
    ensures forall p :: p in parts ==> sep !in p
    ensures Join(parts, sep) == s
  {
    if s == [] then [[]]
    else
      var rest := Split(s[1..], sep);
      if s[0] == sep then
        assert Join([[]] + rest, sep) == [sep] + Join(rest, sep);
        [[]] + rest
      else
        var parts := [[s[0]] + rest[0]] + rest[1..];
        JoinFirst(rest, sep);
        assert Join(parts, sep) == [s[0]] + Join(rest, sep);
        parts
  }

  /** The inverse of Split: the pieces glued back with the separator. */
  function Join(parts: seq<string>, sep: char): string
  {
    if parts == [] then []
    else if |parts| == 1 then parts[0]
    else parts[0] + [sep] + Join(parts[1..], sep)
  }

  lemma JoinFirst(parts: seq<string>, sep: char)
    requires parts != []
    ensures forall c :: Join([[c] + parts[0]] + parts[1..], sep) == [c] + Join(parts, sep)
  {
  }

  /** Splitting a joined list of separator-free pieces gives the pieces
      back: Split and Join are inverse in both directions. */
  lemma {:induction false} SplitJoin(parts: seq<string>, sep: char)
    requires |parts| >= 1
    requires forall p :: p in parts ==> sep !in p
    ensures Split(Join(parts, sep), sep) == parts
  {
    if |parts| == 1 {
      SplitPiece(parts[0], sep);
    } else {
      SplitJoin(parts[1..], sep);
      SplitBefore(parts[0], Join(parts[1..], sep), sep);
      assert parts == [parts[0]] + parts[1..];
    }
  }

  lemma {:induction false} SplitPiece(p: string, sep: char)
    requires sep !in p
    ensures Split(p, sep) == [p]
  {
    if p != [] {
      SplitPiece(p[1..], sep);
      assert [p[0]] + p[1..] == p;
    }
  }

  lemma {:induction false} SplitBefore(p: string, s: string, sep: char)
    requires sep !in p
    ensures Split(p + [sep] + s, sep) == [p] + Split(s, sep)
  {
    if p == [] {
      assert (p + [sep] + s)[1..] == s;
    } else {
      assert (p + [sep] + s)[1..] == p[1..] + [sep] + s;
      SplitBefore(p[1..], s, sep);
      assert [p[0]] + p[1..] == p;
    }
  }

  /** Every character of a piece occurs in the joined string. */
  lemma {:induction false} JoinContains(parts: seq<string>, sep: char, k: nat, j: nat)
    requires k < |parts| && j < |parts[k]|
    ensures parts[k][j] in Join(parts, sep)
  {
    if |parts| > 1 {
      if k == 0 {
        assert Join(parts, sep)[j] == parts[0][j];
      } else {
        JoinContains(parts[1..], sep, k - 1, j);
        var rest := Join(parts[1..], sep);
        assert Join(parts, sep) == (parts[0] + [sep]) + rest;
        assert parts[k][j] in rest;
      }
    }
  }

  /** A join of empty pieces holds nothing but separators. */
  lemma {:induction false} JoinOfEmpty(parts: seq<string>, sep: char)
    requires forall p :: p in parts ==> p == []
    ensures forall c :: c in Join(parts, sep) ==> c == sep
  {
    if |parts| > 1 {
      assert forall p :: p in parts[1..] ==> p in parts;
      JoinOfEmpty(parts[1..], sep);
      assert parts[0] in parts;
      assert Join(parts, sep) == [sep] + Join(parts[1..], sep);
    } else if |parts| == 1 {
      assert parts[0] in parts;
    }
  }

  // ---------------------------------------------------------------- parseInt

  /** A JavaScript number as the scripts can produce it: an integer or NaN.
      (Beyond 2^53 a real JavaScript number loses precision; see README.) */
  datatype JsNum = Num(value: int) | NaN

  /** The value of a hexadecimal digit, either case. */
  function HexDigit(c: char): Option<nat>
  {
    if '0' <= c <= '9' then Some(c as int - '0' as int)
    else if 'a' <= c <= 'f' then Some(c as int - 'a' as int + 10)
    else if 'A' <= c <= 'F' then Some(c as int - 'A' as int + 10)
    else None
  }

  /** Length of the run of hexadecimal digits at the front of `s`. */
  function HexRun(s: string): (n: nat)
    ensures n <= |s|
    ensures forall i :: 0 <= i < n ==> HexDigit(s[i]).Some?
    ensures n < |s| ==> HexDigit(s[n]).None?
  {
    if s == [] || HexDigit(s[0]).None? then 0 else 1 + HexRun(s[1..])
  }

  /** The value of a string of hexadecimal digits, most significant first. */
  function HexValue(digits: string): (v: nat)
    requires forall i :: 0 <= i < |digits| ==> HexDigit(digits[i]).Some?
  {
    if digits == [] then 0
    else HexValue(digits[..|digits| - 1]) * 16 + HexDigit(digits[|digits| - 1]).value
  }

  /** `parseInt(s, 16)`: skip leading white space, take an optional sign,
      drop a `0x`/`0X` prefix, then read the longest run of hexadecimal
      digits; no digits at all gives NaN. */
  function ParseIntHex(s: string): JsNum
  {
    var t := s[LeadingSpace(s)..];
    var negative := t != [] && t[0] == '-';
    var u := if t != [] && (t[0] == '-' || t[0] == '+') then t[1..] else t;
    var w := if |u| >= 2 && u[0] == '0' && (u[1] == 'x' || u[1] == 'X') then u[2..] else u;
    var n := HexRun(w);
    if n == 0 then NaN
    else if negative then Num(0 - HexValue(w[..n]) as int)
    else Num(HexValue(w[..n]))
  }

  /** A cell that is exactly `0x` and two hexadecimal digits parses to the
      byte those digits spell. */
  lemma HexByteValue(hi: char, lo: char)
    requires HexDigit(hi).Some? && HexDigit(lo).Some?
    ensures ParseIntHex(['0', 'x', hi, lo]) == Num(16 * HexDigit(hi).value + HexDigit(lo).value)
    ensures 0 <= 16 * HexDigit(hi).value + HexDigit(lo).value <= 255
  {
    var s := ['0', 'x', hi, lo];
    assert LeadingSpace(s) == 0;
    var w := s[2..];
    assert w == [hi, lo];
    assert HexRun(w[1..]) == 1 by { assert w[1..][1..] == []; }
    assert w[..2][..1] == [hi];
    assert HexValue([hi]) == HexDigit(hi).value by { assert [hi][..0] == []; }
  }
}
