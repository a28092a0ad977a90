/**
 * The string primitives the chat client leans on, with JavaScript's meaning:
 * the `\s` and `\w` regular-expression classes, `String.prototype.trim`,
 * `includes`, `startsWith`/`endsWith`, `split('\n')` and `Number.toString()`.
 */
module Text {

  /** JavaScript's `\s`, which is also the set `trim()` strips: the ECMAScript
      WhiteSpace and LineTerminator characters. */
  predicate IsSpace(c: char) {
    || c == '\t' || c == '\n' || c == '\U{B}' || c == '\U{C}' || c == '\r' || c == ' '
    || c == '\U{A0}' || c == '\U{1680}' || ('\U{2000}' <= c <= '\U{200A}')
    || c == '\U{2028}' || c == '\U{2029}' || c == '\U{202F}' || c == '\U{205F}'
    || c == '\U{3000}' || c == '\U{FEFF}'
  }

  /** JavaScript's `\w`: ASCII letters, digits and underscore. */
  predicate IsWordChar(c: char) {
    ('a' <= c <= 'z') || ('A' <= c <= 'Z') || ('0' <= c <= '9') || c == '_'
  }

  /** The characters a regular-expression `.` does not match. */
  predicate IsLineTerminator(c: char) {
    c == '\n' || c == '\r' || c == '\U{2028}' || c == '\U{2029}'
  }

  /** A TeX operator escape such as `\times`: a backslash followed by letters. */
  predicate IsOperator(op: string) {
    |op| >= 2 && op[0] == '\\' && forall i :: 1 <= i < |op| ==> IsWordChar(op[i])
  }

  /** `s.endsWith(p)`. */
  predicate EndsWith(s: string, p: string) {
    |p| <= |s| && s[|s| - |p|..] == p
  }

  /** `s.includes(p)`. */
  predicate Contains(s: string, p: string)
    decreases |s|
  {
    p <= s || (s != [] && Contains(s[1..], p))
  }

  /** `s.trimStart()`. */
  function TrimStart(s: string): (r: string)
    ensures |r| <= |s| && r == s[|s| - |r|..]
    ensures forall k :: 0 <= k < |s| - |r| ==> IsSpace(s[k])
    ensures r == [] || !IsSpace(r[0])
  {
    if s != [] && IsSpace(s[0]) then
      var r := TrimStart(s[1..]);
      assert s[|s| - |r|..] == s[1..][|s| - 1 - |r|..];
      assert forall k :: 1 <= k < |s| - |r| ==> s[k] == s[1..][k - 1];
      r
    else s
  }

  /** `s.trimEnd()`. */
  function TrimEnd(s: string): (r: string)
    ensures |r| <= |s| && r == s[..|r|]
    ensures forall k :: |r| <= k < |s| ==> IsSpace(s[k])
    ensures r == [] || !IsSpace(r[|r| - 1])
  {
    if s != [] && IsSpace(s[|s| - 1]) then TrimEnd(s[..|s| - 1]) else s
  }

  /** `s.trim()`. */
  function Trim(s: string): string {
    TrimEnd(TrimStart(s))
  }

  /** `s.trim()` is empty exactly when every character of `s` is white space. */
  lemma TrimEmptyIffBlank(s: string)
    ensures Trim(s) == [] <==> forall k :: 0 <= k < |s| ==> IsSpace(s[k])
  {
  }

  /** `s.split('\n')`: the pieces between line feeds, always at least one. */
  function Split(s: string): (r: seq<string>)
    ensures |r| >= 1
    ensures forall k :: 0 <= k < |r| ==> '\n' !in r[k]
  {
    SplitFrom(s, [])
  }

  /** Splitting the rest of the text when `cur` already holds the open piece. */
  function SplitFrom(s: string, cur: string): (r: seq<string>)
    requires '\n' !in cur
    ensures |r| >= 1
    ensures forall k :: 0 <= k < |r| ==> '\n' !in r[k]
    decreases |s|
  {
    if s == [] then [cur]
    else if s[0] == '\n' then [cur] + SplitFrom(s[1..], [])
    else SplitFrom(s[1..], cur + [s[0]])
  }

  /** `parts.join('\n')`. */
  function Join(parts: seq<string>): string
    requires |parts| >= 1
  {
    if |parts| == 1 then parts[0] else parts[0] + "\n" + Join(parts[1..])
  }

  /** Joining the pieces with line feeds gives back the text: `split` loses nothing. */
  lemma JoinSplit(s: string)
    ensures Join(Split(s)) == s
  {
    JoinSplitFrom(s, []);
  }

  lemma {:induction false} JoinSplitFrom(s: string, cur: string)
    requires '\n' !in cur
    ensures Join(SplitFrom(s, cur)) == cur + s
    decreases |s|
  {
    if s == [] {
    } else if s[0] == '\n' {
      JoinSplitFrom(s[1..], []);
      assert cur + s == cur + "\n" + s[1..];
    } else {
      JoinSplitFrom(s[1..], cur + [s[0]]);
      assert cur + s == cur + [s[0]] + s[1..];
    }
  }

  /** Text without a line feed is one piece. */
  lemma SplitWithoutNewline(s: string)
    requires '\n' !in s
    ensures Split(s) == [s]
  {
    SplitFromWithoutNewline(s, []);
    assert [] + s == s;
  }

  lemma {:induction false} SplitFromWithoutNewline(s: string, cur: string)
    requires '\n' !in s && '\n' !in cur
    ensures SplitFrom(s, cur) == [cur + s]
    decreases |s|
  {
    if s != [] {
      assert s[0] in s && s[0] != '\n';
      assert forall c :: c in s[1..] ==> c in s;
      assert '\n' !in cur + [s[0]];
      SplitFromWithoutNewline(s[1..], cur + [s[0]]);
      assert SplitFrom(s, cur) == SplitFrom(s[1..], cur + [s[0]]);
      assert cur + [s[0]] + s[1..] == cur + s;
    } else {
      assert cur + s == cur;
    }
  }

  /** The decimal digits of `n`, as `n.toString()` writes them. */
  function Decimal(n: nat): (r: string)
    ensures |r| >= 1
    ensures forall k :: 0 <= k < |r| ==> '0' <= r[k] <= '9'
  {
    if n < 10 then [Digit(n)] else Decimal(n / 10) + [Digit(n % 10)]
  }

  function Digit(d: nat): (c: char)
    requires d < 10
    ensures '0' <= c <= '9'
    ensures c as int - '0' as int == d
  {
    ('0' as int + d) as char
  }

  /** The value of a string of decimal digits, read most significant first. */
  function DigitsValue(s: string): nat
    requires forall k :: 0 <= k < |s| ==> '0' <= s[k] <= '9'
    decreases |s|
  {
    if s == [] then 0
    else DigitsValue(s[..|s| - 1]) * 10 + (s[|s| - 1] as int - '0' as int)
  }

  /** `toString()` loses nothing: reading the digits back gives the number. */
  lemma {:induction false} DecimalReadBack(n: nat)
    ensures DigitsValue(Decimal(n)) == n
    decreases n
  {
    if n >= 10 {
      DecimalReadBack(n / 10);
      var r := Decimal(n);
      assert r[..|r| - 1] == Decimal(n / 10);
    }
  }

  /** Different numbers are written differently. */
  lemma DecimalInjective(a: nat, b: nat)
    requires Decimal(a) == Decimal(b)
    ensures a == b
  {
    DecimalReadBack(a);
    DecimalReadBack(b);
  }
}
