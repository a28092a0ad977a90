/**
 * The per-fragment normaliser of the reply stream (components/stream-utils.ts):
 * the `response` text of each frame has `\times`, `\div` and `\pm` turned into
 * glyphs, a dangling `\boxed` fragment closed, and is checked for a code fence.
 */
module StreamText {
  import opened Text

  const TimesOp: string := "\\times"
  const DivOp: string := "\\div"
  const PmOp: string := "\\pm"
  const TimesSign: char := '\U{D7}'
  const DivSign: char := '\U{F7}'
  const PlusMinusSign: char := '\U{B1}'

  const BoxedPrefix: string := "\\boxed"
  const EmptyBoxed: string := "\\boxed{}"
  const BoxedPlaceholder: string := "\\boxed{\\ }"
  const Fence: string := "```"

  /** A glyph that can stand in for an operator: neither a word character nor a
      backslash, so it can never be part of an operator escape. */
  predicate IsGlyph(g: char) {
    g != '\\' && !IsWordChar(g)
  }

  /** `s` starts with `op` and the pattern `op\b` matches there: the operator's
      last letter is a word character, so the boundary holds when the next
      character is not one, or at the end of the text. */
  predicate BoundedAt(s: string, op: string) {
    op <= s && (|s| == |op| || !IsWordChar(s[|op|]))
  }

  /** `s.replace(/<op>\b/g, glyph)`, as the regular expression engine scans it:
      left to right, resuming after each match. */
  function ReplaceBounded(s: string, op: string, glyph: char): string
    requires IsOperator(op)
    decreases |s|
  {
    if s == [] then []
    else if BoundedAt(s, op) then [glyph] + ReplaceBounded(s[|op|..], op, glyph)
    else [s[0]] + ReplaceBounded(s[1..], op, glyph)
  }

  /** The reverse substitution: every `glyph` written back as `op`. */
  function Expand(s: string, glyph: char, op: string): string
    decreases |s|
  {
    if s == [] then []
    else (if s[0] == glyph then op else [s[0]]) + Expand(s[1..], glyph, op)
  }

  lemma {:induction false} ExpandConcat(a: string, b: string, glyph: char, op: string)
    ensures Expand(a + b, glyph, op) == Expand(a, glyph, op) + Expand(b, glyph, op)
  {
    if a != [] {
      assert (a + b)[1..] == a[1..] + b;
      ExpandConcat(a[1..], b, glyph, op);
    } else {
      assert a + b == b;
    }
  }

  /** The replacement loses nothing: every glyph in the result stands for one
      operator of the input, and every other character is the input's own. */
  lemma {:induction false} ReplaceBoundedRoundTrip(s: string, op: string, glyph: char)
    requires IsOperator(op) && glyph !in s
    ensures Expand(ReplaceBounded(s, op, glyph), glyph, op) == s
    decreases |s|
  {
    if s != [] {
      if BoundedAt(s, op) {
        assert glyph !in s[|op|..] by {
          forall k | 0 <= k < |s| - |op| ensures s[|op|..][k] != glyph {
            assert s[|op|..][k] == s[|op| + k];
          }
        }
        ReplaceBoundedRoundTrip(s[|op|..], op, glyph);
        ExpandConcat([glyph], ReplaceBounded(s[|op|..], op, glyph), glyph, op);
        assert s == op + s[|op|..];
      } else {
        assert glyph !in s[1..] by {
          forall k | 0 <= k < |s| - 1 ensures s[1..][k] != glyph {
            assert s[1..][k] == s[k + 1];
          }
        }
        ReplaceBoundedRoundTrip(s[1..], op, glyph);
        ExpandConcat([s[0]], ReplaceBounded(s[1..], op, glyph), glyph, op);
        assert s == [s[0]] + s[1..];
      }
    }
  }

  /** The replacement introduces no character other than the glyph. */
  lemma {:induction false} ReplaceBoundedChars(s: string, op: string, glyph: char, c: char)
    requires IsOperator(op)
    requires c in ReplaceBounded(s, op, glyph)
    ensures c in s || c == glyph
    decreases |s|
  {
    if s != [] {
      if BoundedAt(s, op) {
        if c != glyph {
          ReplaceBoundedChars(s[|op|..], op, glyph, c);
          assert forall x :: x in s[|op|..] ==> x in s;
        }
      } else if c != s[0] {
        ReplaceBoundedChars(s[1..], op, glyph, c);
      }
    }
  }

  /** A prefix without backslashes in the result was already in the input. */
  lemma {:induction false} PrefixOfReplaced(w: string, t: string, op: string, glyph: char)
    requires IsOperator(op) && IsGlyph(glyph)
    requires forall k :: 0 <= k < |w| ==> w[k] != '\\' && w[k] != glyph
    requires w <= ReplaceBounded(t, op, glyph)
    ensures w <= t
    decreases |t|
  {
    if w != [] && t != [] {
      var r := ReplaceBounded(t, op, glyph);
      assert r[0] == (if BoundedAt(t, op) then glyph else t[0]);
      if !BoundedAt(t, op) {
        assert r == [t[0]] + ReplaceBounded(t[1..], op, glyph);
        assert w[1..] <= r[1..];
        PrefixOfReplaced(w[1..], t[1..], op, glyph);
        assert w == [w[0]] + w[1..] && t == [t[0]] + t[1..];
      }
    }
  }

  /** A prefix without backslashes in the input survives the replacement. */
  lemma {:induction false} PrefixSurvives(w: string, t: string, op: string, glyph: char)
    requires IsOperator(op)
    requires forall k :: 0 <= k < |w| ==> w[k] != '\\'
    requires w <= t
    ensures w <= ReplaceBounded(t, op, glyph)
    decreases |t|
  {
    if w != [] {
      assert !BoundedAt(t, op) by { assert t[0] == w[0]; }
      PrefixSurvives(w[1..], t[1..], op, glyph);
    }
  }

  /** After the replacement no operator followed by a word boundary is left. */
  lemma {:induction false} ReplaceBoundedClears(s: string, op: string, glyph: char)
    requires IsOperator(op) && IsGlyph(glyph)
    ensures forall i :: 0 <= i <= |ReplaceBounded(s, op, glyph)| ==>
              !BoundedAt(ReplaceBounded(s, op, glyph)[i..], op)
    decreases |s|
  {
    var r := ReplaceBounded(s, op, glyph);
    if s == [] {
      assert r[0..] == [];
    } else if BoundedAt(s, op) {
      var rest := ReplaceBounded(s[|op|..], op, glyph);
      ReplaceBoundedClears(s[|op|..], op, glyph);
      forall i | 0 <= i <= |r| ensures !BoundedAt(r[i..], op) {
        if i > 0 {
          assert r[i..] == rest[i - 1..];
        } else {
          assert r[0] == glyph;
        }
      }
    } else {
      var rest := ReplaceBounded(s[1..], op, glyph);
      ReplaceBoundedClears(s[1..], op, glyph);
      forall i | 0 <= i <= |r| ensures !BoundedAt(r[i..], op) {
        if i > 0 {
          assert r[i..] == rest[i - 1..];
        } else if BoundedAt(r, op) {
          assert s[0] == '\\' && op[1..] <= rest by {
            assert r[0] == s[0] && r[1..] == rest;
            assert op[1..] == r[1..|op|];
          }
          PrefixOfReplaced(op[1..], s[1..], op, glyph);
          assert op <= s by {
            assert s == [s[0]] + s[1..];
          }
          assert |s| > |op|;
          var w := s[1..|op| + 1];
          assert w == s[1..][..|op|];
          PrefixSurvives(w, s[1..], op, glyph);
          assert false;
        }
      }
    }
  }

  /** A backslash-free stretch is copied as it is, whatever follows it. */
  lemma {:induction false} NoBackslashPrefixCopied(w: string, rest: string, op: string, glyph: char)
    requires IsOperator(op) && '\\' !in w
    ensures ReplaceBounded(w + rest, op, glyph) == w + ReplaceBounded(rest, op, glyph)
    decreases |w|
  {
    if w == [] {
      assert w + rest == rest;
    } else {
      var s := w + rest;
      assert s[0] == w[0] && w[0] in w;
      assert !BoundedAt(s, op) by { assert s[0] != op[0]; }
      assert s[1..] == w[1..] + rest;
      assert '\\' !in w[1..] by { assert forall c :: c in w[1..] ==> c in w; }
      NoBackslashPrefixCopied(w[1..], rest, op, glyph);
      assert w == [w[0]] + w[1..];
    }
  }

  /** The scan of `p` is not affected by a following text that starts with a
      backslash: no match of `p` can reach into it (an operator's later
      characters are word characters), and a match ending where `p` ends is
      bounded either way, since a backslash is not a word character. */
  lemma {:induction false} ReplaceBoundedSplit(p: string, t: string, op: string, glyph: char)
    requires IsOperator(op) && (t == [] || t[0] == '\\')
    ensures ReplaceBounded(p + t, op, glyph) == ReplaceBounded(p, op, glyph) + ReplaceBounded(t, op, glyph)
    decreases |p|
  {
    if p == [] {
      assert p + t == t;
    } else {
      var s := p + t;
      BoundaryUnaffected(p, t, op);
      if BoundedAt(p, op) {
        assert s[|op|..] == p[|op|..] + t;
        ReplaceBoundedSplit(p[|op|..], t, op, glyph);
      } else {
        assert s[1..] == p[1..] + t;
        ReplaceBoundedSplit(p[1..], t, op, glyph);
      }
    }
  }

  /** Whether a match starts at the head of `p` does not depend on a following
      text that starts with a backslash. */
  lemma BoundaryUnaffected(p: string, t: string, op: string)
    requires IsOperator(op) && p != [] && (t == [] || t[0] == '\\')
    ensures BoundedAt(p + t, op) == BoundedAt(p, op)
  {
    var s := p + t;
    if |p| < |op| {
      if t == [] {
        assert |s| == |p|;
      } else {
        assert s[|p|] == '\\';
        assert IsWordChar(op[|p|]);
      }
    } else {
      assert s[..|op|] == p[..|op|];
      if |p| > |op| {
        assert s[|op|] == p[|op|];
      } else if t != [] {
        assert s[|op|] == t[0];
      }
    }
  }

  /** Wherever it stands, an operator followed by the end of the text or by a
      character that is not a word character becomes the glyph. */
  lemma ReplaceBoundedAt(p: string, op: string, rest: string, glyph: char)
    requires IsOperator(op) && (rest == [] || !IsWordChar(rest[0]))
    ensures ReplaceBounded(p + op + rest, op, glyph) ==
              ReplaceBounded(p, op, glyph) + [glyph] + ReplaceBounded(rest, op, glyph)
  {
    var t := op + rest;
    assert p + op + rest == p + t;
    ReplaceBoundedSplit(p, t, op, glyph);
    assert BoundedAt(t, op) by {
      assert op <= t;
      if rest != [] { assert t[|op|] == rest[0]; }
    }
    assert t[|op|..] == rest;
  }

  /** Wherever it stands, an operator followed by a word character is not a
      match (`\b` fails between two word characters): it is copied, with that
      character, and the scan resumes after them. */
  lemma ReplaceBoundedGlued(p: string, op: string, c: char, rest: string, glyph: char)
    requires IsOperator(op) && IsWordChar(c)
    ensures ReplaceBounded(p + op + [c] + rest, op, glyph) ==
              ReplaceBounded(p, op, glyph) + op + [c] + ReplaceBounded(rest, op, glyph)
  {
    var t := op + [c] + rest;
    assert p + op + [c] + rest == p + t;
    ReplaceBoundedSplit(p, t, op, glyph);
    assert !BoundedAt(t, op) by { assert t[|op|] == c; }
    var w := op[1..] + [c];
    assert '\\' !in w by {
      forall k | 0 <= k < |w| ensures w[k] != '\\' {
        if k < |op| - 1 { assert w[k] == op[k + 1] && IsWordChar(op[k + 1]); }
      }
    }
    assert t[1..] == w + rest;
    NoBackslashPrefixCopied(w, rest, op, glyph);
    assert op == [op[0]] + op[1..];
  }

  /** Text without a backslash holds no operator escape and is left alone. */
  lemma {:induction false} NoBackslashUnchanged(s: string, op: string, glyph: char)
    requires IsOperator(op) && '\\' !in s
    ensures ReplaceBounded(s, op, glyph) == s
    decreases |s|
  {
    if s != [] {
      assert !BoundedAt(s, op) by { assert s[0] != op[0]; }
      assert forall c :: c in s[1..] ==> c in s;
      NoBackslashUnchanged(s[1..], op, glyph);
    }
  }

  /** The three substitutions of the stream, in the source's order. */
  function ReplaceOperators(s: string): string {
    ReplaceBounded(ReplaceBounded(ReplaceBounded(s, TimesOp, TimesSign), DivOp, DivSign), PmOp, PlusMinusSign)
  }

  /** All three glyphs written back as their operators. */
  function ExpandOperators(s: string): string {
    Expand(Expand(Expand(s, PlusMinusSign, PmOp), DivSign, DivOp), TimesSign, TimesOp)
  }

  /** On text that holds none of the glyphs, the substitutions can be undone:
      they rewrite operator escapes and leave every other character in place. */
  lemma ReplaceOperatorsRoundTrip(s: string)
    requires TimesSign !in s && DivSign !in s && PlusMinusSign !in s
    ensures ExpandOperators(ReplaceOperators(s)) == s
  {
    var r1 := ReplaceBounded(s, TimesOp, TimesSign);
    var r2 := ReplaceBounded(r1, DivOp, DivSign);
    assert DivSign !in r1 && PlusMinusSign !in r1 by {
      if DivSign in r1 { ReplaceBoundedChars(s, TimesOp, TimesSign, DivSign); }
      if PlusMinusSign in r1 { ReplaceBoundedChars(s, TimesOp, TimesSign, PlusMinusSign); }
    }
    assert PlusMinusSign !in r2 by {
      if PlusMinusSign in r2 { ReplaceBoundedChars(r1, DivOp, DivSign, PlusMinusSign); }
    }
    ReplaceBoundedRoundTrip(r2, PmOp, PlusMinusSign);
    ReplaceBoundedRoundTrip(r1, DivOp, DivSign);
    ReplaceBoundedRoundTrip(s, TimesOp, TimesSign);
  }

  /** The substitutions leave text without a backslash alone. */
  lemma OperatorsNoBackslash(s: string)
    requires '\\' !in s
    ensures ReplaceOperators(s) == s
  {
    NoBackslashUnchanged(s, TimesOp, TimesSign);
    NoBackslashUnchanged(s, DivOp, DivSign);
    NoBackslashUnchanged(s, PmOp, PlusMinusSign);
  }

  /** The `\boxed` repair of one fragment. */
  function RepairBoxed(s: string): (r: string)
    ensures BoxedPrefix <= r ==> EndsWith(r, "}")
    ensures !(BoxedPrefix <= s) ==> r == s
    ensures s == EmptyBoxed ==> r == BoxedPlaceholder
    ensures s != EmptyBoxed && BoxedPrefix <= s && EndsWith(s, "}") ==> r == s
    ensures BoxedPrefix <= s && !EndsWith(s, "}") ==> r == s + "}"
  {
    if s == EmptyBoxed then BoxedPlaceholder
    else if BoxedPrefix <= s && !EndsWith(s, "}") then s + "}"
    else s
  }

  /** The one fragment the repair does not settle in one pass: `\boxed{` is
      closed to exactly the empty form `\boxed{}`, which a second pass would
      turn into the placeholder. */
  const OpenBoxed: string := "\\boxed{"

  /** Repairing a repaired fragment changes nothing, for every fragment other
      than `\boxed{`; and for that one it does. */
  lemma RepairBoxedIdempotent(s: string)
    ensures RepairBoxed(RepairBoxed(s)) == RepairBoxed(s) <==> s != OpenBoxed
  {
    if s == OpenBoxed {
      assert RepairBoxed(s) == EmptyBoxed;
    } else if RepairBoxed(s) == s + "}" {
      assert s + "}" != EmptyBoxed;
      assert EndsWith(s + "}", "}");
      assert BoxedPrefix <= s + "}";
    } else if s == EmptyBoxed {
      assert BoxedPlaceholder != EmptyBoxed;
      assert EndsWith(BoxedPlaceholder, "}");
    }
  }

  /** The normalised text of one frame's `response`. */
  function Normalise(s: string): string {
    RepairBoxed(ReplaceOperators(s))
  }

  /** A text whose only backslash opens it, followed by `b`, holds none of the
      three operators: the substitution leaves it alone. */
  lemma LeadingBackslashUnchanged(s: string, op: string, glyph: char)
    requires IsOperator(op) && op[1] != 'b'
    requires |s| >= 2 && s[0] == '\\' && s[1] == 'b' && '\\' !in s[1..]
    ensures ReplaceBounded(s, op, glyph) == s
  {
    assert !BoundedAt(s, op) by { assert s[1] != op[1]; }
    NoBackslashUnchanged(s[1..], op, glyph);
    assert s == [s[0]] + s[1..];
  }

  /** A lone `\boxed{` fragment holds no operator and is closed to `\boxed{}`. */
  lemma NormaliseOpenBoxed()
    ensures Normalise(OpenBoxed) == EmptyBoxed
  {
    OperatorsOpenBoxed();
    RepairOpenBoxed();
  }

  lemma OperatorsOpenBoxed()
    ensures ReplaceOperators(OpenBoxed) == OpenBoxed
  {
    OperatorsLeadingBackslash(OpenBoxed);
  }

  lemma OperatorsLeadingBackslash(s: string)
    requires |s| >= 2 && s[0] == '\\' && s[1] == 'b' && '\\' !in s[1..]
    ensures ReplaceOperators(s) == s
  {
    LeadingBackslashUnchanged(s, TimesOp, TimesSign);
    LeadingBackslashUnchanged(s, DivOp, DivSign);
    LeadingBackslashUnchanged(s, PmOp, PlusMinusSign);
  }

  lemma RepairOpenBoxed()
    ensures RepairBoxed(OpenBoxed) == EmptyBoxed
  {
    assert OpenBoxed != EmptyBoxed by { assert |OpenBoxed| != |EmptyBoxed|; }
    assert BoxedPrefix <= OpenBoxed;
    assert !EndsWith(OpenBoxed, "}") by { assert OpenBoxed[|OpenBoxed| - 1] == '{'; }
    assert OpenBoxed + "}" == EmptyBoxed;
  }

  /** `content.includes('```')`: whether the fragment toggles the code-fence bit. */
  predicate HasFence(s: string) {
    Contains(s, Fence)
  }
}
