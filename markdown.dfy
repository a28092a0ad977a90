/**
 * The text preprocessing of the Markdown renderer (components/markdown.tsx):
 * `convertMathSymbols`, which turns six TeX operator escapes that stand between
 * white space (or the ends of the text) into glyphs, and the two `$` passes the
 * renderer applies to the whole reply before handing it to the Markdown parser.
 */
module MarkdownText {
  import opened Wrappers
  import opened Text
  import opened Seqs
  import opened StreamText

  const CdotOp: string := "\\cdot"
  const LeqOp: string := "\\leq"
  const GeqOp: string := "\\geq"
  const MiddleDot: char := '\U{B7}'
  const LessEqualSign: char := '\U{2264}'
  const GreaterEqualSign: char := '\U{2265}'

  // ---------------------------------------------------------------------------
  // `text.replace(/(^|\s)<op>(\s|$)/g, '$1<glyph>$2')`

  /** `t` starts with `op` followed by white space or by the end of the text:
      the pattern's `<op>(\s|$)` part matches at the start of `t`. */
  predicate OpBreak(t: string, op: string) {
    op <= t && (|t| == |op| || IsSpace(t[|op|]))
  }

  /** Where that match ends: the white space after the operator is consumed. */
  function MatchEnd(t: string, op: string): (e: nat)
    requires OpBreak(t, op)
    ensures |op| <= e <= |t| && e <= |op| + 1
    ensures e == |t| || IsSpace(t[|op|])
  {
    if |t| == |op| then |op| else |op| + 1
  }

  /** The global replacement of one operator, scanning left to right and
      resuming after each match; `atStart` says whether the scan is at the start
      of the whole text, where `^` matches. At the start the operator may open
      the text; elsewhere it must follow a white-space character, which the
      match consumes together with the one after the operator. */
  function ConvertFrom(s: string, op: string, glyph: char, atStart: bool): string
    requires IsOperator(op)
    decreases |s|
  {
    if s == [] then []
    else if atStart && OpBreak(s, op) then
      var e := MatchEnd(s, op);
      [glyph] + s[|op|..e] + ConvertFrom(s[e..], op, glyph, false)
    else if IsSpace(s[0]) && OpBreak(s[1..], op) then
      var e := 1 + MatchEnd(s[1..], op);
      [s[0], glyph] + s[1 + |op|..e] + ConvertFrom(s[e..], op, glyph, false)
    else
      [s[0]] + ConvertFrom(s[1..], op, glyph, false)
  }

  function ConvertOp(s: string, op: string, glyph: char): string
    requires IsOperator(op)
  {
    ConvertFrom(s, op, glyph, true)
  }

  lemma NotInSuffix(s: string, i: nat, c: char)
    requires i <= |s| && c !in s
    ensures c !in s[i..]
  {
    assert forall x :: x in s[i..] ==> x in s;
  }

  lemma NotInSlice(s: string, i: nat, j: nat, c: char)
    requires i <= j <= |s| && c !in s
    ensures c !in s[i..j]
  {
  }

  lemma {:induction false} ExpandWithoutGlyph(t: string, glyph: char, op: string)
    requires glyph !in t
    ensures Expand(t, glyph, op) == t
    decreases |t|
  {
    if t != [] {
      assert glyph !in t[1..] by { assert forall c :: c in t[1..] ==> c in t; }
      ExpandWithoutGlyph(t[1..], glyph, op);
      assert t == [t[0]] + t[1..];
    }
  }

  /** Writing the glyph back in `[glyph] + mid + rest` gives `op + mid` followed by
      the expansion of `rest`, when `mid` holds no glyph. */
  lemma ExpandMatch(glyph: char, op: string, mid: string, rest: string)
    requires glyph !in mid
    ensures Expand([glyph] + mid + rest, glyph, op) == op + mid + Expand(rest, glyph, op)
  {
    ExpandConcat([glyph] + mid, rest, glyph, op);
    ExpandConcat([glyph], mid, glyph, op);
    ExpandWithoutGlyph(mid, glyph, op);
    assert Expand([glyph], glyph, op) == op + Expand([], glyph, op);
  }

  /** A character other than the glyph is copied by `Expand`. */
  lemma ExpandHead(c: char, t: string, glyph: char, op: string)
    requires c != glyph
    ensures Expand([c] + t, glyph, op) == [c] + Expand(t, glyph, op)
  {
    assert ([c] + t)[1..] == t;
  }

  lemma RoundTripAtStart(s: string, op: string, glyph: char)
    requires IsOperator(op) && glyph !in s && OpBreak(s, op)
    requires Expand(ConvertFrom(s[MatchEnd(s, op)..], op, glyph, false), glyph, op) == s[MatchEnd(s, op)..]
    ensures Expand(ConvertFrom(s, op, glyph, true), glyph, op) == s
  {
    var e := MatchEnd(s, op);
    var mid, tail := s[|op|..e], s[e..];
    var rest := ConvertFrom(tail, op, glyph, false);
    calc {
      Expand(ConvertFrom(s, op, glyph, true), glyph, op);
      { ConvertAtStart(s, op, glyph); }
      Expand([glyph] + mid + rest, glyph, op);
      { NotInSlice(s, |op|, e, glyph);
        ExpandMatch(glyph, op, mid, rest); }
      op + mid + Expand(rest, glyph, op);
      op + mid + tail;
      { SplitAtStart(s, op, e); }
      s;
    }
  }

  lemma ConvertAtStart(s: string, op: string, glyph: char)
    requires IsOperator(op) && OpBreak(s, op)
    ensures var e := MatchEnd(s, op);
            ConvertFrom(s, op, glyph, true) == [glyph] + s[|op|..e] + ConvertFrom(s[e..], op, glyph, false)
  {
  }

  lemma SplitAtStart(s: string, op: string, e: nat)
    requires op <= s && |op| <= e <= |s|
    ensures s == op + s[|op|..e] + s[e..]
  {
    assert s[..|op|] == op;
    assert s == s[..|op|] + s[|op|..e] + s[e..];
  }

  lemma RoundTripAfterSpace(s: string, op: string, glyph: char, atStart: bool)
    requires IsOperator(op) && glyph !in s && s != [] && IsSpace(s[0]) && OpBreak(s[1..], op)
    requires Expand(ConvertFrom(s[1 + MatchEnd(s[1..], op)..], op, glyph, false), glyph, op)
               == s[1 + MatchEnd(s[1..], op)..]
    ensures Expand(ConvertFrom(s, op, glyph, atStart), glyph, op) == s
  {
    var e := 1 + MatchEnd(s[1..], op);
    var mid, tail := s[1 + |op|..e], s[e..];
    var rest := ConvertFrom(tail, op, glyph, false);
    calc {
      Expand(ConvertFrom(s, op, glyph, atStart), glyph, op);
      { ConvertAfterSpace(s, op, glyph, atStart); }
      Expand([s[0]] + ([glyph] + mid + rest), glyph, op);
      { assert s[0] in s;
        ExpandHead(s[0], [glyph] + mid + rest, glyph, op); }
      [s[0]] + Expand([glyph] + mid + rest, glyph, op);
      { NotInSlice(s, 1 + |op|, e, glyph);
        ExpandMatch(glyph, op, mid, rest); }
      [s[0]] + (op + mid + Expand(rest, glyph, op));
      [s[0]] + (op + mid + tail);
      { SplitAfterSpace(s, op, e); }
      s;
    }
  }

  lemma ConvertAfterSpace(s: string, op: string, glyph: char, atStart: bool)
    requires IsOperator(op) && s != [] && IsSpace(s[0]) && OpBreak(s[1..], op)
    ensures var e := 1 + MatchEnd(s[1..], op);
            ConvertFrom(s, op, glyph, atStart) ==
              [s[0]] + ([glyph] + s[1 + |op|..e] + ConvertFrom(s[e..], op, glyph, false))
  {
    assert !(atStart && OpBreak(s, op)) by { assert s[0] != op[0]; }
  }

  lemma SplitAfterSpace(s: string, op: string, e: nat)
    requires s != [] && op <= s[1..] && 1 + |op| <= e <= |s|
    ensures s == [s[0]] + (op + s[1 + |op|..e] + s[e..])
  {
    assert s[1..1 + |op|] == op;
  }

  /** The conversion loses nothing: on text without the glyph, writing each glyph
      back as the operator gives the text back. */
  lemma {:induction false} ConvertFromRoundTrip(s: string, op: string, glyph: char, atStart: bool)
    requires IsOperator(op) && glyph !in s
    ensures Expand(ConvertFrom(s, op, glyph, atStart), glyph, op) == s
    decreases |s|, 1
  {
    if s == [] {
    } else if atStart && OpBreak(s, op) {
      RoundTripMatchAtStart(s, op, glyph);
    } else if IsSpace(s[0]) && OpBreak(s[1..], op) {
      RoundTripMatchAfterSpace(s, op, glyph, atStart);
    } else {
      RoundTripNoMatch(s, op, glyph, atStart);
    }
  }

  lemma {:induction false} RoundTripMatchAtStart(s: string, op: string, glyph: char)
    requires IsOperator(op) && glyph !in s && OpBreak(s, op)
    ensures Expand(ConvertFrom(s, op, glyph, true), glyph, op) == s
    decreases |s|, 0
  {
    var e := MatchEnd(s, op);
    NotInSuffix(s, e, glyph);
    ConvertFromRoundTrip(s[e..], op, glyph, false);
    RoundTripAtStart(s, op, glyph);
  }

  lemma {:induction false} RoundTripMatchAfterSpace(s: string, op: string, glyph: char, atStart: bool)
    requires IsOperator(op) && glyph !in s && s != [] && IsSpace(s[0]) && OpBreak(s[1..], op)
    ensures Expand(ConvertFrom(s, op, glyph, atStart), glyph, op) == s
    decreases |s|, 0
  {
    var e := 1 + MatchEnd(s[1..], op);
    NotInSuffix(s, e, glyph);
    ConvertFromRoundTrip(s[e..], op, glyph, false);
    RoundTripAfterSpace(s, op, glyph, atStart);
  }

  lemma {:induction false} RoundTripNoMatch(s: string, op: string, glyph: char, atStart: bool)
    requires IsOperator(op) && glyph !in s && s != []
    requires !(atStart && OpBreak(s, op)) && !(IsSpace(s[0]) && OpBreak(s[1..], op))
    ensures Expand(ConvertFrom(s, op, glyph, atStart), glyph, op) == s
    decreases |s|, 0
  {
    NotInSuffix(s, 1, glyph);
    ConvertFromRoundTrip(s[1..], op, glyph, false);
    RoundTripPlain(s, op, glyph, atStart);
  }

  lemma RoundTripPlain(s: string, op: string, glyph: char, atStart: bool)
    requires IsOperator(op) && glyph !in s && s != []
    requires !(atStart && OpBreak(s, op)) && !(IsSpace(s[0]) && OpBreak(s[1..], op))
    requires Expand(ConvertFrom(s[1..], op, glyph, false), glyph, op) == s[1..]
    ensures Expand(ConvertFrom(s, op, glyph, atStart), glyph, op) == s
  {
    ExpandConcat([s[0]], ConvertFrom(s[1..], op, glyph, false), glyph, op);
    assert s[0] in s;
    assert s == [s[0]] + s[1..];
  }

  /** The conversion brings in no character other than the glyph. */
  lemma {:induction false} ConvertFromChars(s: string, op: string, glyph: char, atStart: bool, c: char)
    requires IsOperator(op) && c != glyph && c !in s
    ensures c !in ConvertFrom(s, op, glyph, atStart)
    decreases |s|
  {
    if s != [] {
      if atStart && OpBreak(s, op) {
        NotInSlice(s, MatchEnd(s, op), |s|, c);
        NotInSlice(s, |op|, MatchEnd(s, op), c);
        ConvertFromChars(s[MatchEnd(s, op)..], op, glyph, false, c);
      } else if IsSpace(s[0]) && OpBreak(s[1..], op) {
        NotInSlice(s, 1 + MatchEnd(s[1..], op), |s|, c);
        NotInSlice(s, 1 + |op|, 1 + MatchEnd(s[1..], op), c);
        ConvertFromChars(s[1 + MatchEnd(s[1..], op)..], op, glyph, false, c);
      } else {
        NotInSlice(s, 1, |s|, c);
        ConvertFromChars(s[1..], op, glyph, false, c);
      }
    }
  }

  /** Text without a backslash holds no operator and is left as it is. */
  lemma {:induction false} ConvertFromNoBackslash(s: string, op: string, glyph: char, atStart: bool)
    requires IsOperator(op) && '\\' !in s
    ensures ConvertFrom(s, op, glyph, atStart) == s
    decreases |s|
  {
    if s != [] {
      assert !OpBreak(s, op) by { assert s[0] != op[0]; }
      assert |s| > 1 ==> !OpBreak(s[1..], op) by {
        if |s| > 1 { assert s[1] != op[0]; }
      }
      assert '\\' !in s[1..] by { assert forall c :: c in s[1..] ==> c in s; }
      ConvertFromNoBackslash(s[1..], op, glyph, false);
      assert s == [s[0]] + s[1..];
    }
  }

  lemma OperatorHasOneBackslash(op: string)
    requires IsOperator(op)
    ensures '\\' !in op[1..]
  {
    forall k | 0 <= k < |op[1..]| ensures op[1..][k] != '\\' {
      assert IsWordChar(op[k + 1]);
    }
  }

  /** A backslash that does not open a match is copied, and a text with no
      further backslash after it is copied whole. */
  lemma BackslashHeadKept(t: string, op: string, glyph: char, atStart: bool)
    requires IsOperator(op) && t != [] && t[0] == '\\' && '\\' !in t[1..]
    requires atStart ==> !OpBreak(t, op)
    ensures ConvertFrom(t, op, glyph, atStart) == t
  {
    assert !IsSpace(t[0]);
    ConvertFromNoBackslash(t[1..], op, glyph, false);
    assert t == [t[0]] + t[1..];
  }

  /** A character that opens no match is copied. */
  lemma ConvertPlainStep(s: string, op: string, glyph: char, atStart: bool)
    requires IsOperator(op) && s != []
    requires !(atStart && OpBreak(s, op)) && !(IsSpace(s[0]) && OpBreak(s[1..], op))
    ensures ConvertFrom(s, op, glyph, atStart) == [s[0]] + ConvertFrom(s[1..], op, glyph, false)
  {
  }

  /** `op` followed by a space is a match that ends after the space. */
  lemma OpThenSpace(op: string, rest: string)
    requires IsOperator(op)
    ensures var u := op + " " + rest;
            OpBreak(u, op) && MatchEnd(u, op) == |op| + 1 &&
            u[|op|..|op| + 1] == " " && u[|op| + 1..] == rest
  {
    var u := op + " " + rest;
    assert u[|op|] == ' ';
    assert op <= u;
    assert u[|op|..|op| + 1] == " ";
    assert u[|op| + 1..] == rest;
  }

  /** No character of an operator escape is white space. */
  lemma OperatorHasNoSpace(op: string)
    requires IsOperator(op)
    ensures forall k :: 0 <= k < |op| ==> !IsSpace(op[k])
  {
    forall k | 0 <= k < |op| ensures !IsSpace(op[k]) {
      if k > 0 {
        assert IsWordChar(op[k]);
      }
    }
  }

  /** Past the start, a character is copied unless it is white space directly
      followed by a match of the operator. */
  lemma ConvertCopy(c: char, rest: string, op: string, glyph: char)
    requires IsOperator(op) && !(IsSpace(c) && OpBreak(rest, op))
    ensures ConvertFrom([c] + rest, op, glyph, false) == [c] + ConvertFrom(rest, op, glyph, false)
  {
    var s := [c] + rest;
    assert s[1..] == rest;
    ConvertPlainStep(s, op, glyph, false);
  }

  /** Past the start, a stretch without white space is copied as it is,
      whatever follows it: no match can begin inside it. */
  lemma {:induction false} ConvertNonSpaceRun(w: string, rest: string, op: string, glyph: char)
    requires IsOperator(op) && forall k :: 0 <= k < |w| ==> !IsSpace(w[k])
    ensures ConvertFrom(w + rest, op, glyph, false) == w + ConvertFrom(rest, op, glyph, false)
    decreases |w|
  {
    if w != [] {
      assert w + rest == [w[0]] + (w[1..] + rest);
      ConvertCopy(w[0], w[1..] + rest, op, glyph);
      assert forall k :: 0 <= k < |w[1..]| ==> w[1..][k] == w[k + 1];
      ConvertNonSpaceRun(w[1..], rest, op, glyph);
      assert w == [w[0]] + w[1..];
    } else {
      assert w + rest == rest;
    }
  }

  /** An operator with a white-space character on each side: converted, both
      characters kept around the glyph, and the scan goes on after them. */
  lemma ConvertSpacedAt(s: string, op: string, glyph: char, atStart: bool)
    requires IsOperator(op) && |s| >= |op| + 2
    requires IsSpace(s[0]) && s[1..1 + |op|] == op && IsSpace(s[1 + |op|])
    ensures ConvertFrom(s, op, glyph, atStart) == [s[0], glyph, s[1 + |op|]] + ConvertFrom(s[2 + |op|..], op, glyph, false)
  {
    assert s[1..][..|op|] == op;
    assert OpBreak(s[1..], op);
    ConvertAfterSpace(s, op, glyph, atStart);
    assert s[1 + |op|..2 + |op|] == [s[1 + |op|]];
  }

  /** An operator after a white-space character at the very end of the text:
      converted, the white space kept. */
  lemma ConvertAtEnd(w: char, op: string, glyph: char, atStart: bool)
    requires IsOperator(op) && IsSpace(w)
    ensures ConvertFrom([w] + op, op, glyph, atStart) == [w, glyph]
  {
    var s := [w] + op;
    assert s[1..] == op;
    assert OpBreak(op, op);
    ConvertAfterSpace(s, op, glyph, atStart);
    assert s[1 + |op|..] == [];
  }

  /** `ConvertSpacedAt` with the white space and the rest named. */
  lemma ConvertSpaced(w1: char, op: string, w2: char, glyph: char, rest: string)
    requires IsOperator(op) && IsSpace(w1) && IsSpace(w2)
    ensures ConvertFrom([w1] + op + [w2] + rest, op, glyph, false) == [w1, glyph, w2] + ConvertFrom(rest, op, glyph, false)
  {
    var t := [w1] + op + [w2] + rest;
    assert t[1..1 + |op|] == op;
    assert t[1 + |op|] == w2;
    assert t[2 + |op|..] == rest;
    ConvertSpacedAt(t, op, glyph, false);
  }

  /** An operator between two white-space characters is converted, with both
      kept, whatever character stands before them. */
  lemma ConvertBetween(c: char, w1: char, op: string, w2: char, glyph: char, rest: string, atStart: bool)
    requires IsOperator(op) && IsSpace(w1) && IsSpace(w2)
    ensures ConvertFrom([c, w1] + op + [w2] + rest, op, glyph, atStart) ==
              [c, w1, glyph, w2] + ConvertFrom(rest, op, glyph, false)
  {
    var t := [w1] + op + [w2] + rest;
    var s := [c] + t;
    assert IsWordChar(op[1]);
    assert !OpBreak(s, op) by { assert s[1] == w1 != op[1]; }
    assert !OpBreak(t, op) by { assert t[0] == w1 != op[0]; }
    assert s[1..] == t;
    calc {
      ConvertFrom([c, w1] + op + [w2] + rest, op, glyph, atStart);
      { assert [c, w1] + op + [w2] + rest == s; }
      ConvertFrom(s, op, glyph, atStart);
      { ConvertPlainStep(s, op, glyph, atStart); }
      [c] + ConvertFrom(t, op, glyph, false);
      { ConvertSpaced(w1, op, w2, glyph, rest); }
      [c] + ([w1, glyph, w2] + ConvertFrom(rest, op, glyph, false));
      [c, w1, glyph, w2] + ConvertFrom(rest, op, glyph, false);
    }
  }

  /** An operator glued to the non-space character before it is not a match:
      both are copied, whatever follows, and the scan goes on after them. */
  lemma ConvertGluedBefore(c: char, op: string, glyph: char, rest: string, atStart: bool)
    requires IsOperator(op) && !IsSpace(c)
    ensures ConvertFrom([c] + op + rest, op, glyph, atStart) == [c] + op + ConvertFrom(rest, op, glyph, false)
  {
    var s := [c] + op + rest;
    assert IsWordChar(op[1]);
    assert !OpBreak(s, op) by { assert s[1] == op[0] != op[1]; }
    assert s[1..] == op + rest;
    ConvertPlainStep(s, op, glyph, atStart);
    OperatorHasNoSpace(op);
    ConvertNonSpaceRun(op, rest, op, glyph);
  }

  /** An operator glued to the non-space character after it is not a match,
      whatever character stands before it: all are copied and the scan goes on
      after them. */
  lemma ConvertGluedAfter(w: char, op: string, d: char, glyph: char, rest: string, atStart: bool)
    requires IsOperator(op) && !IsSpace(d)
    ensures ConvertFrom([w] + op + [d] + rest, op, glyph, atStart) == [w] + op + [d] + ConvertFrom(rest, op, glyph, false)
  {
    var u := op + [d] + rest;
    var s := [w] + u;
    assert s == [w] + op + [d] + rest;
    assert IsWordChar(op[1]);
    assert !OpBreak(s, op) by { assert s[1] == op[0] != op[1]; }
    assert !OpBreak(u, op) by { assert u[|op|] == d; }
    assert s[1..] == u;
    ConvertPlainStep(s, op, glyph, atStart);
    OperatorHasNoSpace(op);
    assert u == (op + [d]) + rest;
    ConvertNonSpaceRun(op + [d], rest, op, glyph);
  }

  /** The same at the very start of the text, where nothing precedes the
      operator: `\timesx` is not a match either. */
  lemma ConvertGluedAfterHead(op: string, d: char, glyph: char, rest: string, atStart: bool)
    requires IsOperator(op) && !IsSpace(d)
    ensures ConvertFrom(op + [d] + rest, op, glyph, atStart) == op + [d] + ConvertFrom(rest, op, glyph, false)
  {
    var s := op + [d] + rest;
    var v := op[1..] + [d];
    assert !OpBreak(s, op) by { assert s[|op|] == d; }
    OperatorHasNoSpace(op);
    assert forall k :: 0 <= k < |v| ==> !IsSpace(v[k]) by {
      assert forall k :: 0 <= k < |v| - 1 ==> v[k] == op[k + 1];
    }
    assert s[0] == op[0] && s[1..] == v + rest;
    calc {
      ConvertFrom(s, op, glyph, atStart);
      { ConvertPlainStep(s, op, glyph, atStart); }
      [op[0]] + ConvertFrom(v + rest, op, glyph, false);
      { ConvertNonSpaceRun(v, rest, op, glyph); }
      [op[0]] + (v + ConvertFrom(rest, op, glyph, false));
      { assert [op[0]] + v == op + [d]; }
      op + [d] + ConvertFrom(rest, op, glyph, false);
    }
  }

  /** Two occurrences of the same operator separated by one space (`\times \times`):
      the first match consumes the space, so the second has nothing before it
      and stays. */
  lemma ConvertShared(op: string, glyph: char)
    requires IsOperator(op)
    ensures ConvertFrom(op + " " + op, op, glyph, true) == [glyph] + " " + op
  {
    var s := op + " " + op;
    OpThenSpace(op, op);
    ConvertAtStart(s, op, glyph);
    OperatorHasOneBackslash(op);
    BackslashHeadKept(op, op, glyph, false);
  }

  /** An operator standing between spaces is converted, and the spaces stay. */
  lemma ConvertBetweenSpaces()
    ensures ConvertOp("a \\times b", TimesOp, TimesSign) == "a \U{D7} b"
  {
    ConvertBetween('a', ' ', TimesOp, ' ', TimesSign, "b", true);
    ConvertFromNoBackslash("b", TimesOp, TimesSign, false);
    assert "a \\times b" == ['a', ' '] + TimesOp + [' '] + "b";
  }

  /** An operator glued to the word before it is not converted. */
  lemma ConvertNeedsSpaceBefore()
    ensures ConvertOp("a\\times b", TimesOp, TimesSign) == "a\\times b"
  {
    ConvertGluedBefore('a', TimesOp, TimesSign, " b", true);
    ConvertFromNoBackslash(" b", TimesOp, TimesSign, false);
    assert "a\\times b" == ['a'] + TimesOp + " b";
  }

  /** An operator glued to the next word is not a match either:
      `\timesx` stays as it is. */
  lemma ConvertNeedsSpaceAfter()
    ensures ConvertOp("\\timesx", TimesOp, TimesSign) == "\\timesx"
  {
    ConvertGluedAfterHead(TimesOp, 'x', TimesSign, [], true);
    assert ConvertFrom([], TimesOp, TimesSign, false) == [];
    assert "\\timesx" == TimesOp + ['x'] + [];
  }

  /** `convertMathSymbols`: the six conversions, in the source's order. */
  function ConvertMathSymbols(s: string): string {
    var s1 := ConvertOp(s, TimesOp, TimesSign);
    var s2 := ConvertOp(s1, DivOp, DivSign);
    var s3 := ConvertOp(s2, PmOp, PlusMinusSign);
    var s4 := ConvertOp(s3, CdotOp, MiddleDot);
    var s5 := ConvertOp(s4, LeqOp, LessEqualSign);
    ConvertOp(s5, GeqOp, GreaterEqualSign)
  }

  /** Every glyph written back as its operator, in the reverse order. */
  function ExpandMathSymbols(s: string): string {
    var s5 := Expand(s, GreaterEqualSign, GeqOp);
    var s4 := Expand(s5, LessEqualSign, LeqOp);
    var s3 := Expand(s4, MiddleDot, CdotOp);
    var s2 := Expand(s3, PlusMinusSign, PmOp);
    var s1 := Expand(s2, DivSign, DivOp);
    Expand(s1, TimesSign, TimesOp)
  }

  predicate NoMathGlyph(s: string) {
    && TimesSign !in s && DivSign !in s && PlusMinusSign !in s
    && MiddleDot !in s && LessEqualSign !in s && GreaterEqualSign !in s
  }

  /** On text without any of the six glyphs the conversion can be undone: it
      only rewrites operator escapes. */
  lemma ConvertMathSymbolsRoundTrip(s: string)
    requires NoMathGlyph(s)
    ensures ExpandMathSymbols(ConvertMathSymbols(s)) == s
  {
    var s1 := ConvertOp(s, TimesOp, TimesSign);
    var s2 := ConvertOp(s1, DivOp, DivSign);
    var s3 := ConvertOp(s2, PmOp, PlusMinusSign);
    var s4 := ConvertOp(s3, CdotOp, MiddleDot);
    var s5 := ConvertOp(s4, LeqOp, LessEqualSign);
    ConvertFromChars(s, TimesOp, TimesSign, true, DivSign);
    ConvertFromChars(s, TimesOp, TimesSign, true, PlusMinusSign);
    ConvertFromChars(s, TimesOp, TimesSign, true, MiddleDot);
    ConvertFromChars(s, TimesOp, TimesSign, true, LessEqualSign);
    ConvertFromChars(s, TimesOp, TimesSign, true, GreaterEqualSign);
    ConvertFromChars(s1, DivOp, DivSign, true, PlusMinusSign);
    ConvertFromChars(s1, DivOp, DivSign, true, MiddleDot);
    ConvertFromChars(s1, DivOp, DivSign, true, LessEqualSign);
    ConvertFromChars(s1, DivOp, DivSign, true, GreaterEqualSign);
    ConvertFromChars(s2, PmOp, PlusMinusSign, true, MiddleDot);
    ConvertFromChars(s2, PmOp, PlusMinusSign, true, LessEqualSign);
    ConvertFromChars(s2, PmOp, PlusMinusSign, true, GreaterEqualSign);
    ConvertFromChars(s3, CdotOp, MiddleDot, true, LessEqualSign);
    ConvertFromChars(s3, CdotOp, MiddleDot, true, GreaterEqualSign);
    ConvertFromChars(s4, LeqOp, LessEqualSign, true, GreaterEqualSign);
    ConvertFromRoundTrip(s5, GeqOp, GreaterEqualSign, true);
    ConvertFromRoundTrip(s4, LeqOp, LessEqualSign, true);
    ConvertFromRoundTrip(s3, CdotOp, MiddleDot, true);
    ConvertFromRoundTrip(s2, PmOp, PlusMinusSign, true);
    ConvertFromRoundTrip(s1, DivOp, DivSign, true);
    ConvertFromRoundTrip(s, TimesOp, TimesSign, true);
  }

  /** Text without a backslash is left as it is by all six conversions. */
  lemma ConvertMathSymbolsNoBackslash(s: string)
    requires '\\' !in s
    ensures ConvertMathSymbols(s) == s
  {
    ConvertFromNoBackslash(s, TimesOp, TimesSign, true);
    ConvertFromNoBackslash(s, DivOp, DivSign, true);
    ConvertFromNoBackslash(s, PmOp, PlusMinusSign, true);
    ConvertFromNoBackslash(s, CdotOp, MiddleDot, true);
    ConvertFromNoBackslash(s, LeqOp, LessEqualSign, true);
    ConvertFromNoBackslash(s, GeqOp, GreaterEqualSign, true);
  }

  // ---------------------------------------------------------------------------
  // The `$` passes

  const Dollar: string := "$"
  const TwoDollars: string := "$$"

  /** The lazy `(.*?)<d>` part of a pattern, at the start of `t`: the first
      position where `d` starts, provided no line terminator (which `.` does not
      match) comes before it. */
  function FindClose(t: string, d: string): (r: Option<nat>)
    ensures r.Some? ==> r.value + |d| <= |t| && d <= t[r.value..]
    decreases |t|
  {
    if d <= t then Some(0)
    else if t == [] || IsLineTerminator(t[0]) then None
    else match FindClose(t[1..], d)
      case None => None
      case Some(j) => Some(j + 1)
  }

  /** `FindClose` is the lazy match: the position it finds is the first place
      `d` starts and no line terminator precedes it; when it finds none, every
      place `d` starts lies beyond a line terminator. */
  lemma FindCloseFirst(t: string, d: string)
    ensures FindClose(t, d).Some? ==>
              forall k :: 0 <= k < FindClose(t, d).value ==> !IsLineTerminator(t[k]) && !(d <= t[k..])
    ensures FindClose(t, d).None? ==>
              forall k :: 0 <= k <= |t| && d <= t[k..] ==> exists j :: 0 <= j < k && IsLineTerminator(t[j])
  {
    if FindClose(t, d).Some? {
      FindCloseEarliest(t, d);
    } else {
      FindCloseNone(t, d);
    }
  }

  lemma {:induction false} FindCloseEarliest(t: string, d: string)
    requires FindClose(t, d).Some?
    ensures forall k :: 0 <= k < FindClose(t, d).value ==> !IsLineTerminator(t[k]) && !(d <= t[k..])
    decreases |t|
  {
    if !(d <= t) {
      FindCloseEarliest(t[1..], d);
      forall k | 1 <= k < FindClose(t, d).value ensures !IsLineTerminator(t[k]) && !(d <= t[k..]) {
        assert t[k..] == t[1..][k - 1..];
      }
    }
  }

  lemma {:induction false} FindCloseNone(t: string, d: string)
    requires FindClose(t, d).None?
    ensures forall k :: 0 <= k <= |t| && d <= t[k..] ==> exists j :: 0 <= j < k && IsLineTerminator(t[j])
    decreases |t|
  {
    if t != [] && !IsLineTerminator(t[0]) {
      FindCloseNone(t[1..], d);
      forall k | 0 <= k <= |t| && d <= t[k..]
        ensures exists j :: 0 <= j < k && IsLineTerminator(t[j])
      {
        assert k != 0;
        assert t[k..] == t[1..][k - 1..];
        var j :| 0 <= j < k - 1 && IsLineTerminator(t[1..][j]);
        assert IsLineTerminator(t[j + 1]);
      }
    } else if t != [] {
      forall k | 0 <= k <= |t| && d <= t[k..]
        ensures exists j :: 0 <= j < k && IsLineTerminator(t[j])
      {
        assert k != 0;
        assert IsLineTerminator(t[0]);
      }
    }
  }

  /** `.replace(/\$\$(.*?)\$\$/g, (_, p1) => ...)`: every `$$...$$` on one line
      is replaced by `$$` + the captured text + `$$`, as the replacement
      function's template literal spells it. */
  function BlockPass(s: string): string
    decreases |s|
  {
    if s == [] then []
    else if TwoDollars <= s && FindClose(s[2..], TwoDollars).Some? then
      var j := FindClose(s[2..], TwoDollars).value;
      TwoDollars + s[2..2 + j] + TwoDollars + BlockPass(s[2 + j + 2..])
    else [s[0]] + BlockPass(s[1..])
  }

  /** The block pass writes every match back as it was: it changes nothing. */
  lemma {:induction false} BlockPassIdentity(s: string)
    ensures BlockPass(s) == s
    decreases |s|
  {
    if s != [] {
      if TwoDollars <= s && FindClose(s[2..], TwoDollars).Some? {
        var j := FindClose(s[2..], TwoDollars).value;
        BlockPassIdentity(s[2 + j + 2..]);
        BlockMatchParts(s, j);
      } else {
        BlockPassIdentity(s[1..]);
        assert s == [s[0]] + s[1..];
      }
    }
  }

  /** A block match, cut into its parts, is the text it was cut from. */
  lemma BlockMatchParts(s: string, j: nat)
    requires TwoDollars <= s && FindClose(s[2..], TwoDollars) == Some(j)
    ensures s == TwoDollars + s[2..2 + j] + TwoDollars + s[2 + j + 2..]
  {
    var t := s[2..];
    assert s[..2] == TwoDollars;
    assert t[j..j + 2] == TwoDollars by { assert TwoDollars <= t[j..]; }
    assert s[2 + j..2 + j + 2] == t[j..j + 2];
    CutInFour(s, 2, 2 + j, 2 + j + 2);
  }

  lemma CutInFour(s: string, i: nat, k: nat, m: nat)
    requires i <= k <= m <= |s|
    ensures s == s[..i] + s[i..k] + s[k..m] + s[m..]
  {
    assert s[..k] == s[..i] + s[i..k];
    assert s[..m] == s[..k] + s[k..m];
    assert s == s[..m] + s[m..];
  }

  /** `.replace(/\$(.*?)\$/g, (_, p1) => ...)`: every `$...$` on one line becomes
      `$$...$$`. */
  function InlinePass(s: string): string
    decreases |s|
  {
    if s == [] then []
    else if Dollar <= s && FindClose(s[1..], Dollar).Some? then
      var j := FindClose(s[1..], Dollar).value;
      TwoDollars + s[1..1 + j] + TwoDollars + InlinePass(s[1 + j + 1..])
    else [s[0]] + InlinePass(s[1..])
  }

  /** The preprocessing of a whole reply, as written. */
  function PreprocessAsWritten(s: string): string {
    InlinePass(BlockPass(ConvertMathSymbols(s)))
  }

  /** The text without its dollar signs. */
  function StripDollars(s: string): string
    decreases |s|
  {
    if s == [] then [] else (if s[0] == '$' then [] else [s[0]]) + StripDollars(s[1..])
  }

  lemma {:induction false} StripConcat(x: string, y: string)
    ensures StripDollars(x + y) == StripDollars(x) + StripDollars(y)
    decreases |x|
  {
    if x == [] {
      assert x + y == y;
    } else {
      assert (x + y)[1..] == x[1..] + y;
      StripConcat(x[1..], y);
    }
  }

  /** A formula wrapped in dollar signs strips to its content. */
  lemma StripWrapped(w: string, p: string)
    requires w == Dollar || w == TwoDollars
    ensures StripDollars(w + p + w) == StripDollars(p)
  {
    StripConcat(w + p, w);
    StripConcat(w, p);
    assert w == TwoDollars ==> w[1..] == Dollar;
  }

  /** A match of `$...$` at the start of `s`, split into its parts. */
  lemma InlineMatchParts(s: string, j: nat)
    requires Dollar <= s && j + 1 <= |s[1..]| && Dollar <= s[1..][j..]
    ensures s == (Dollar + s[1..1 + j] + Dollar) + s[1 + j + 1..]
  {
    assert s[1 + j] == '$';
  }

  /** Widening one inline match keeps the text, given that what follows it
      keeps its text. */
  lemma WidenKeepsText(s: string, j: nat, out: string)
    requires Dollar <= s && FindClose(s[1..], Dollar) == Some(j)
    requires StripDollars(out) == StripDollars(s[1 + j + 1..])
    ensures StripDollars(TwoDollars + s[1..1 + j] + TwoDollars + out) == StripDollars(s)
  {
    var mid, rest := s[1..1 + j], s[1 + j + 1..];
    StripAppend(TwoDollars + mid + TwoDollars, out, rest);
    StripConcat(TwoDollars + mid + TwoDollars, rest);
    StripWrapped(TwoDollars, mid);
    InlineMatchParts(s, j);
    StripConcat(Dollar + mid + Dollar, rest);
    StripWrapped(Dollar, mid);
  }

  /** Copying one character keeps the text, given that what follows keeps its
      text. */
  lemma PlainKeepsText(s: string, out: string)
    requires s != [] && StripDollars(out) == StripDollars(s[1..])
    ensures StripDollars([s[0]] + out) == StripDollars(s)
  {
    StripAppend([s[0]], out, s[1..]);
    assert s == [s[0]] + s[1..];
  }

  /** The inline pass only adds dollar signs: everything else is kept, in order. */
  lemma {:induction false} InlinePassKeepsText(s: string)
    ensures StripDollars(InlinePass(s)) == StripDollars(s)
    decreases |s|
  {
    if s != [] {
      if Dollar <= s && FindClose(s[1..], Dollar).Some? {
        var j := FindClose(s[1..], Dollar).value;
        InlinePassKeepsText(s[1 + j + 1..]);
        WidenKeepsText(s, j, InlinePass(s[1 + j + 1..]));
      } else {
        InlinePassKeepsText(s[1..]);
        PlainKeepsText(s, InlinePass(s[1..]));
      }
    }
  }

  /** Text without a dollar sign is left as it is by the inline pass. */
  lemma {:induction false} InlinePassNoDollar(s: string)
    requires '$' !in s
    ensures InlinePass(s) == s
    decreases |s|
  {
    if s != [] {
      assert '$' !in s[1..] by { assert forall c :: c in s[1..] ==> c in s; }
      InlinePassNoDollar(s[1..]);
      assert s == [s[0]] + s[1..];
    }
  }

  /** Text without a dollar sign is copied by the inline pass, whatever
      follows it. */
  lemma {:induction false} InlinePassNoDollarPrefix(w: string, rest: string)
    requires '$' !in w
    ensures InlinePass(w + rest) == w + InlinePass(rest)
    decreases |w|
  {
    if w == [] {
      assert w + rest == rest;
    } else {
      var c, v := w[0], w[1..];
      assert '$' !in v by { assert forall x :: x in v ==> x in w; }
      calc {
        InlinePass(w + rest);
        { assert w + rest == [c] + (v + rest); }
        InlinePass([c] + (v + rest));
        { InlinePassPlain(c, v + rest); }
        [c] + InlinePass(v + rest);
        { InlinePassNoDollarPrefix(v, rest); }
        [c] + (v + InlinePass(rest));
        { assert w == [c] + v; }
        w + InlinePass(rest);
      }
    }
  }

  /** An inline formula `$p$` on one line, with no dollar sign inside, becomes
      `$$p$$`, and the scan goes on after it. */
  lemma InlineFormulaWidenedAt(p: string, rest: string)
    requires '$' !in p && forall k :: 0 <= k < |p| ==> !IsLineTerminator(p[k])
    ensures InlinePass(Dollar + p + Dollar + rest) == TwoDollars + p + TwoDollars + InlinePass(rest)
  {
    var s := Dollar + p + Dollar + rest;
    var t := s[1..];
    assert t == p + Dollar + rest;
    FindCloseAt(t, Dollar, |p|);
    InlinePassUnfold(s, |p|);
    assert s[1..1 + |p|] == p;
    assert s[1 + |p| + 1..] == rest;
  }

  /** As written, on text without a backslash the whole preprocessing is the
      inline pass: the symbol conversion and the block pass change nothing. */
  lemma PreprocessAsWrittenNoBackslash(s: string)
    requires '\\' !in s
    ensures PreprocessAsWritten(s) == InlinePass(s)
  {
    ConvertMathSymbolsNoBackslash(s);
    BlockPassIdentity(s);
  }

  /** As written, a reply that is one inline formula `$p$` (no dollar sign,
      backslash or line terminator inside) comes out as `$$p$$`. */
  lemma InlineFormulaWidened(p: string)
    requires '$' !in p && '\\' !in p && forall k :: 0 <= k < |p| ==> !IsLineTerminator(p[k])
    ensures PreprocessAsWritten(Dollar + p + Dollar) == TwoDollars + p + TwoDollars
  {
    var s := Dollar + p + Dollar;
    assert '\\' !in s by { assert forall k :: 0 <= k < |s| ==> s[k] == '$' || s[k] == p[k - 1]; }
    ConvertMathSymbolsNoBackslash(s);
    BlockPassIdentity(s);
    InlineFormulaWidenedAt(p, []);
    assert s == Dollar + p + Dollar + [];
    assert TwoDollars + p + TwoDollars + InlinePass([]) == TwoDollars + p + TwoDollars;
  }

  /** Each `$$` on its own reads as an empty inline formula and is doubled. */
  lemma InlineDoublesPair(rest: string)
    ensures InlinePass(TwoDollars + rest) == "$$$$" + InlinePass(rest)
  {
    var s := TwoDollars + rest;
    var t := s[1..];
    assert t == Dollar + rest;
    FindCloseOpening(t, Dollar);
    assert s[0] == '$';
    InlinePassUnfold(s, 0);
    assert s[1..1] == [];
    assert s[2..] == rest;
  }

  /** A delimiter right at the start closes at once. */
  lemma FindCloseOpening(t: string, d: string)
    requires d <= t
    ensures FindClose(t, d) == Some(0)
  {
  }

  lemma InlinePassUnfold(s: string, j: nat)
    requires Dollar <= s && FindClose(s[1..], Dollar) == Some(j)
    ensures InlinePass(s) == TwoDollars + s[1..1 + j] + TwoDollars + InlinePass(s[1 + j + 1..])
  {
  }

  /** As written, a reply that is one display formula `$$p$$` (no dollar sign
      or backslash inside) comes out as `$$$$p$$$$`: the block pass leaves it
      alone, and the inline pass then reads each `$$` as an empty inline
      formula and doubles it. */
  lemma DisplayFormulaDoubled(p: string)
    requires '$' !in p && '\\' !in p
    ensures PreprocessAsWritten(TwoDollars + p + TwoDollars) == "$$$$" + p + "$$$$"
  {
    var s := TwoDollars + p + TwoDollars;
    assert '\\' !in s by { assert forall k :: 0 <= k < |s| ==> s[k] == '$' || s[k] == p[k - 2]; }
    ConvertMathSymbolsNoBackslash(s);
    BlockPassIdentity(s);
    InlinePassDoublesDisplay(p);
  }

  /** The inline pass doubles both `$$` of a display formula. */
  lemma InlinePassDoublesDisplay(p: string)
    requires '$' !in p
    ensures InlinePass(TwoDollars + p + TwoDollars) == "$$$$" + p + "$$$$"
  {
    calc {
      InlinePass(TwoDollars + p + TwoDollars);
      { assert TwoDollars + p + TwoDollars == TwoDollars + (p + TwoDollars);
        InlineDoublesPair(p + TwoDollars); }
      "$$$$" + InlinePass(p + TwoDollars);
      { InlinePassNoDollarPrefix(p, TwoDollars); }
      "$$$$" + (p + InlinePass(TwoDollars));
      { assert TwoDollars == TwoDollars + []; InlineDoublesPair([]); }
      "$$$$" + (p + ("$$$$" + InlinePass([])));
      { assert InlinePass([]) == []; }
      "$$$$" + p + "$$$$";
    }
  }

  /** A character other than `$` is copied and the scan moves on. */
  lemma InlinePassPlain(c: char, rest: string)
    requires c != '$'
    ensures InlinePass([c] + rest) == [c] + InlinePass(rest)
  {
    var s := [c] + rest;
    assert !(Dollar <= s) by { assert s[0] == c; }
    assert s[1..] == rest;
  }

  // ---------------------------------------------------------------------------
  // The `$` preprocessing as evidently intended

  /** One scan that keeps each `$$...$$` display formula as it is and widens each
      `$...$` inline formula to `$$...$$`. */
  function DollarPass(s: string): string
    decreases |s|
  {
    if s == [] then []
    else if TwoDollars <= s && FindClose(s[2..], TwoDollars).Some? then
      var j := FindClose(s[2..], TwoDollars).value;
      s[..2 + j + 2] + DollarPass(s[2 + j + 2..])
    else if Dollar <= s && FindClose(s[1..], Dollar).Some? then
      var j := FindClose(s[1..], Dollar).value;
      TwoDollars + s[1..1 + j] + TwoDollars + DollarPass(s[1 + j + 1..])
    else [s[0]] + DollarPass(s[1..])
  }

  /** The preprocessing of a whole reply, as evidently intended. */
  function Preprocess(s: string): string {
    DollarPass(ConvertMathSymbols(s))
  }

  /** A character other than `$` is copied and the scan moves on. */
  lemma DollarPassPlain(c: char, rest: string)
    requires c != '$'
    ensures DollarPass([c] + rest) == [c] + DollarPass(rest)
  {
    var s := [c] + rest;
    assert !(Dollar <= s) && !(TwoDollars <= s) by { assert s[0] == c; }
    assert s[1..] == rest;
  }

  /** Text without a dollar sign is copied by the corrected scan, whatever
      follows it: every formula is treated the same wherever it stands. */
  lemma {:induction false} DollarPassNoDollarPrefix(w: string, rest: string)
    requires '$' !in w
    ensures DollarPass(w + rest) == w + DollarPass(rest)
    decreases |w|
  {
    if w == [] {
      assert w + rest == rest;
    } else {
      var c, v := w[0], w[1..];
      assert '$' !in v by { assert forall x :: x in v ==> x in w; }
      calc {
        DollarPass(w + rest);
        { assert w + rest == [c] + (v + rest); }
        DollarPass([c] + (v + rest));
        { DollarPassPlain(c, v + rest); }
        [c] + DollarPass(v + rest);
        { DollarPassNoDollarPrefix(v, rest); }
        [c] + (v + DollarPass(rest));
        { assert w == [c] + v; }
        w + DollarPass(rest);
      }
    }
  }

  /** With the correction, on text without a backslash the whole
      preprocessing is the corrected scan. */
  lemma PreprocessNoBackslash(s: string)
    requires '\\' !in s
    ensures Preprocess(s) == DollarPass(s)
  {
    ConvertMathSymbolsNoBackslash(s);
  }

  /** A display formula on one line, without dollar signs inside, is kept. */
  lemma DisplayFormulaKept(p: string, rest: string)
    requires '$' !in p && forall k :: 0 <= k < |p| ==> !IsLineTerminator(p[k])
    ensures DollarPass(TwoDollars + p + TwoDollars + rest) == TwoDollars + p + TwoDollars + DollarPass(rest)
  {
    var s := TwoDollars + p + TwoDollars + rest;
    var t := s[2..];
    assert t == p + TwoDollars + rest;
    FindCloseAt(t, TwoDollars, |p|);
    assert s[..2 + |p| + 2] == TwoDollars + p + TwoDollars;
    assert s[2 + |p| + 2..] == rest;
  }

  /** An inline formula on one line, not empty and without dollar signs inside,
      is widened to a display formula. */
  lemma InlineFormulaWidenedOnce(p: string, rest: string)
    requires p != [] && '$' !in p && forall k :: 0 <= k < |p| ==> !IsLineTerminator(p[k])
    ensures DollarPass(Dollar + p + Dollar + rest) == TwoDollars + p + TwoDollars + DollarPass(rest)
  {
    var s := Dollar + p + Dollar + rest;
    assert s[1] == p[0];
    assert !(TwoDollars <= s);
    var t := s[1..];
    assert t == p + Dollar + rest;
    FindCloseAt(t, Dollar, |p|);
    assert s[1..1 + |p|] == p;
    assert s[1 + |p| + 1..] == rest;
  }

  /** `FindClose` finds the first occurrence when nothing before it is a line
      terminator and `d` (whose characters are all dollar signs) starts nowhere
      earlier. */
  lemma {:induction false} FindCloseAt(t: string, d: string, j: nat)
    requires d != [] && forall k :: 0 <= k < |d| ==> d[k] == '$'
    requires j + |d| <= |t| && d <= t[j..]
    requires forall k :: 0 <= k < j ==> t[k] != '$' && !IsLineTerminator(t[k])
    ensures FindClose(t, d) == Some(j)
    decreases j
  {
    if j > 0 {
      assert !(d <= t) by { assert t[0] != d[0]; }
      assert t[1..][j - 1..] == t[j..];
      FindCloseAt(t[1..], d, j - 1);
    }
  }

  /** `StripDollars` of `x + y`, when `y` strips like `y'`, is that of `x + y'`. */
  lemma StripAppend(x: string, y: string, y': string)
    requires StripDollars(y) == StripDollars(y')
    ensures StripDollars(x + y) == StripDollars(x + y')
  {
    StripConcat(x, y);
    StripConcat(x, y');
  }

  /** The corrected scan's display case, given that the rest keeps its text. */
  lemma DollarPassDisplayStep(s: string)
    requires TwoDollars <= s && FindClose(s[2..], TwoDollars).Some?
    requires var e := FindClose(s[2..], TwoDollars).value + 4;
             StripDollars(DollarPass(s[e..])) == StripDollars(s[e..])
    ensures StripDollars(DollarPass(s)) == StripDollars(s)
  {
    var e := FindClose(s[2..], TwoDollars).value + 4;
    StripAppend(s[..e], DollarPass(s[e..]), s[e..]);
    assert s == s[..e] + s[e..];
  }

  /** The corrected scan's plain case, given that the rest keeps its text. */
  lemma DollarPassPlainStep(s: string)
    requires s != [] && StripDollars(DollarPass(s[1..])) == StripDollars(s[1..])
    requires !(TwoDollars <= s && FindClose(s[2..], TwoDollars).Some?)
    requires !(Dollar <= s && FindClose(s[1..], Dollar).Some?)
    ensures StripDollars(DollarPass(s)) == StripDollars(s)
  {
    PlainKeepsText(s, DollarPass(s[1..]));
  }

  /** The corrected scan's inline case, one step. */
  lemma DollarPassInlineUnfold(s: string, j: nat)
    requires !(TwoDollars <= s && FindClose(s[2..], TwoDollars).Some?)
    requires Dollar <= s && FindClose(s[1..], Dollar) == Some(j)
    ensures DollarPass(s) == TwoDollars + s[1..1 + j] + TwoDollars + DollarPass(s[1 + j + 1..])
  {
  }

  /** The corrected scan also only adds dollar signs. */
  lemma {:induction false} DollarPassKeepsText(s: string)
    ensures StripDollars(DollarPass(s)) == StripDollars(s)
    decreases |s|
  {
    if s == [] {
    } else if TwoDollars <= s && FindClose(s[2..], TwoDollars).Some? {
      DollarPassKeepsText(s[FindClose(s[2..], TwoDollars).value + 4..]);
      DollarPassDisplayStep(s);
    } else if Dollar <= s && FindClose(s[1..], Dollar).Some? {
      var j := FindClose(s[1..], Dollar).value;
      DollarPassKeepsText(s[1 + j + 1..]);
      WidenKeepsText(s, j, DollarPass(s[1 + j + 1..]));
      DollarPassInlineUnfold(s, j);
    } else {
      DollarPassKeepsText(s[1..]);
      DollarPassPlainStep(s);
    }
  }

  /** With the corrected scan a reply that is one display formula `$$p$$` (no
      dollar sign, backslash or line terminator inside) comes out unchanged. */
  lemma DisplayFormulaPreserved(p: string)
    requires '$' !in p && '\\' !in p && forall k :: 0 <= k < |p| ==> !IsLineTerminator(p[k])
    ensures Preprocess(TwoDollars + p + TwoDollars) == TwoDollars + p + TwoDollars
  {
    var s := TwoDollars + p + TwoDollars;
    assert '\\' !in s by { assert forall k :: 0 <= k < |s| ==> s[k] == '$' || s[k] == p[k - 2]; }
    ConvertMathSymbolsNoBackslash(s);
    DisplayFormulaKept(p, []);
    assert s == TwoDollars + p + TwoDollars + [];
    assert DollarPass([]) == [];
  }

  /** With the corrected scan a reply that is one non-empty inline formula
      `$p$` (no dollar sign, backslash or line terminator inside) is still
      widened to `$$p$$`. */
  lemma InlineFormulaStillWidened(p: string)
    requires p != [] && '$' !in p && '\\' !in p && forall k :: 0 <= k < |p| ==> !IsLineTerminator(p[k])
    ensures Preprocess(Dollar + p + Dollar) == TwoDollars + p + TwoDollars
  {
    var s := Dollar + p + Dollar;
    assert '\\' !in s by { assert forall k :: 0 <= k < |s| ==> s[k] == '$' || s[k] == p[k - 1]; }
    ConvertMathSymbolsNoBackslash(s);
    InlineFormulaWidenedOnce(p, []);
    assert s == Dollar + p + Dollar + [];
    assert DollarPass([]) == [];
  }
}
