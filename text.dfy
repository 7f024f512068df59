/** Character classes and string tests that the JavaScript regular expressions
    of the validators rely on, plus the small `Option` wrapper every validator
    returns (`None` stands for JavaScript's `undefined`). */
module Text {

  datatype Option<+T> = None | Some(value: T)

  /** `\s` of an ECMAScript regular expression: the WhiteSpace and
      LineTerminator code points of the language standard (tab, vertical tab,
      form feed, space, no-break space, byte order mark, the Unicode space
      separators, line feed, carriage return, line and paragraph separator). */
  predicate IsSpace(c: char)
  {
    || c == '\t' || c == '\n' || c == '\U{000B}' || c == '\U{000C}' || c == '\r'
    || c == ' ' || c == '\U{00A0}' || c == '\U{1680}'
    || ('\U{2000}' <= c <= '\U{200A}')
    || c == '\U{2028}' || c == '\U{2029}' || c == '\U{202F}' || c == '\U{205F}'
    || c == '\U{3000}' || c == '\U{FEFF}'
  }

  /** The characters an unescaped `.` refuses (no `s` flag): the line terminators. */
  predicate IsLineTerminator(c: char)
  {
    c == '\n' || c == '\r' || c == '\U{2028}' || c == '\U{2029}'
  }

  /** A character JavaScript stores as one UTF-16 code unit: one of the Basic
      Multilingual Plane. Every other character is a surrogate pair. */
  predicate OneCodeUnit(c: char)
  {
    (c as int) < 0x1_0000
  }

  /** `\d` and `[0-9]` (ASCII digits only). */
  predicate IsDigit(c: char)
  {
    '0' <= c <= '9'
  }

  /** `[a-z]` */
  predicate IsLower(c: char)
  {
    'a' <= c <= 'z'
  }

  /** `[A-Z]` */
  predicate IsUpper(c: char)
  {
    'A' <= c <= 'Z'
  }

  /** `[A-Za-z]` */
  predicate IsLetter(c: char)
  {
    IsLower(c) || IsUpper(c)
  }

  /** The numeric value of an ASCII digit. */
  function DigitValue(c: char): (n: nat)
    requires IsDigit(c)
    ensures n <= 9
    ensures c == ['0', '1', '2', '3', '4', '5', '6', '7', '8', '9'][n]
  {
    (c - '0') as nat
  }

  /** An unanchored `/\s/.test(s)`. */
  predicate HasSpace(s: string)
  {
    exists i | 0 <= i < |s| :: IsSpace(s[i])
  }

  /** An unanchored `/[0-9]/.test(s)`. */
  predicate HasDigit(s: string)
  {
    exists i | 0 <= i < |s| :: IsDigit(s[i])
  }

  /** An unanchored `/[A-Z]/.test(s)`. */
  predicate HasUpper(s: string)
  {
    exists i | 0 <= i < |s| :: IsUpper(s[i])
  }

  /** An unanchored test for the literal `t` (`/;;/`, `/---/`, ...). */
  predicate Contains(s: string, t: string)
  {
    exists i | 0 <= i <= |s| - |t| :: OccursAt(s, t, i)
  }

  /** `t` occurs in `s` starting at index `i`. */
  predicate OccursAt(s: string, t: string, i: int)
  {
    0 <= i <= |s| - |t| && s[i..i + |t|] == t
  }

  predicate StartsWith(s: string, c: char)
  {
    |s| > 0 && s[0] == c
  }

  predicate EndsWith(s: string, c: char)
  {
    |s| > 0 && s[|s| - 1] == c
  }

  /** A longer literal contains every shorter one it begins with: a value
      that contains `----` also contains `---`. */
  lemma ContainsPrefix(s: string, t: string, u: string)
    requires Contains(s, t + u)
    ensures Contains(s, t)
  {
    var i :| 0 <= i <= |s| - |t + u| && OccursAt(s, t + u, i);
    assert s[i..i + |t|] == (t + u)[..|t|];
    assert OccursAt(s, t, i);
  }

  /** `Array.prototype.join`: the parts with `sep` between neighbours. */
  function Join(parts: seq<string>, sep: string): (r: string)
  {
    if parts == [] then ""
    else if |parts| == 1 then parts[0]
    else parts[0] + sep + Join(parts[1..], sep)
  }

  /** Joining one more part in front adds it and one separator. */
  lemma JoinCons(p: string, rest: seq<string>, sep: string)
    requires rest != []
    ensures Join([p] + rest, sep) == p + sep + Join(rest, sep)
  {
    assert ([p] + rest)[1..] == rest;
  }
}
