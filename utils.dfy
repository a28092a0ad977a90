/**
 * The pure helpers of lib/utils.ts: `generateUUID`, `convertToUIMessages`,
 * `sanitizeUIMessages` and `getDocumentTimestampByIndex`.
 */
module Utils {
  import opened Wrappers
  import opened Text
  import opened Seqs

  // ---------------------------------------------------------------------------
  // generateUUID

  /** `(Math.random() * 16) | 0`: one random hexadecimal digit value. */
  type Nibble = x: int | 0 <= x < 16

  const UUIDTemplate: string := "xxxxxxxx-xxxx-4xxx-yxxx-xxxxxxxxxxxx"

  /** `v.toString(16)` for a single digit: lower-case hexadecimal. */
  function HexDigit(v: Nibble): (c: char)
    ensures IsLowerHex(c)
  {
    "0123456789abcdef"[v]
  }

  predicate IsLowerHex(c: char) {
    ('0' <= c <= '9') || ('a' <= c <= 'f')
  }

  /** The value a lower-case hexadecimal digit stands for. */
  function HexValue(c: char): Nibble
    requires IsLowerHex(c)
  {
    if '0' <= c <= '9' then (c - '0') as int else (c - 'a') as int + 10
  }

  lemma HexValueOfDigit(v: Nibble)
    ensures HexValue(HexDigit(v)) == v
  {
  }

  /** `(r & 0x3) | 0x8`: the variant digit of section 4.4 of RFC 4122. */
  function VariantOf(r: Nibble): (v: Nibble)
    ensures 8 <= v <= 11 && v % 4 == r % 4
  {
    VariantBits(r);
    (((r as bv8) & 3) | 8) as int
  }

  lemma VariantBits(r: Nibble)
    ensures (((r as bv8) & 3) | 8) as int == 8 + r % 4
  {
    var b := r as bv8;
    assert b & 3 == (r % 4) as bv8 by {
      assert r == 0 || r == 1 || r == 2 || r == 3 || r == 4 || r == 5 || r == 6 || r == 7
          || r == 8 || r == 9 || r == 10 || r == 11 || r == 12 || r == 13 || r == 14 || r == 15;
    }
  }

  /** How many `x` and `y` slots a template has. */
  function Slots(t: string): nat
    decreases |t|
  {
    if t == [] then 0 else (if t[0] == 'x' || t[0] == 'y' then 1 else 0) + Slots(t[1..])
  }

  /** `t.replace(/[xy]/g, ...)`, drawing one nibble per slot in order: an `x`
      shows the nibble, a `y` its variant digit, anything else stays. */
  function Fill(t: string, nibbles: seq<Nibble>): (r: string)
    requires |nibbles| == Slots(t)
    ensures |r| == |t|
    ensures forall i :: 0 <= i < |t| && t[i] != 'x' && t[i] != 'y' ==> r[i] == t[i]
    ensures forall i :: 0 <= i < |t| && t[i] == 'x' ==> IsLowerHex(r[i])
    ensures forall i :: 0 <= i < |t| && t[i] == 'y' ==> r[i] in "89ab"
    decreases |t|
  {
    if t == [] then []
    else if t[0] == 'x' then [HexDigit(nibbles[0])] + Fill(t[1..], nibbles[1..])
    else if t[0] == 'y' then
      var v := VariantOf(nibbles[0]);
      assert HexDigit(v) == "89ab"[v - 8];
      [HexDigit(v)] + Fill(t[1..], nibbles[1..])
    else [t[0]] + Fill(t[1..], nibbles)
  }

  /** `n` template slots of kind `x`. */
  function Xs(n: nat): (r: string)
    ensures |r| == n && forall i :: 0 <= i < n ==> r[i] == 'x'
  {
    seq(n, _ => 'x')
  }

  lemma {:induction false} SlotsXs(n: nat)
    ensures Slots(Xs(n)) == n
  {
    if n > 0 {
      assert Xs(n)[1..] == Xs(n - 1);
      SlotsXs(n - 1);
    }
  }

  lemma {:induction false} SlotsConcat(a: string, b: string)
    ensures Slots(a + b) == Slots(a) + Slots(b)
    decreases |a|
  {
    if a == [] {
      assert a + b == b;
    } else {
      assert (a + b)[1..] == a[1..] + b;
      SlotsConcat(a[1..], b);
    }
  }

  /** The template cut at its dashes. */
  lemma TemplateSegments()
    ensures UUIDTemplate == Xs(8) + "-" + Xs(4) + "-4" + Xs(3) + "-y" + Xs(3) + "-" + Xs(12)
  {
  }

  lemma SlotsOfSeparators()
    ensures Slots("-") == 0 && Slots("-4") == 0 && Slots("-y") == 1
  {
    assert "-4"[1..] == "4";
    assert "-y"[1..] == "y";
  }

  lemma SlotsOfTemplate()
    ensures Slots(UUIDTemplate) == 31
  {
    TemplateSegments();
    SlotsOfSegments();
  }

  lemma SlotsOfSegments()
    ensures Slots(Xs(8) + "-" + Xs(4) + "-4" + Xs(3) + "-y" + Xs(3) + "-" + Xs(12)) == 31
  {
    SlotsOfSeparators();
    var x8, x4, x3, x12 := Xs(8), Xs(4), Xs(3), Xs(12);
    SlotsXs(8); SlotsXs(4); SlotsXs(3); SlotsXs(12);
    var a := x8 + "-";
    SlotsConcat(x8, "-");
    var b := a + x4;
    SlotsConcat(a, x4);
    var c := b + "-4";
    SlotsConcat(b, "-4");
    var d := c + x3;
    SlotsConcat(c, x3);
    var e := d + "-y";
    SlotsConcat(d, "-y");
    var f := e + x3;
    SlotsConcat(e, x3);
    var g := f + "-";
    SlotsConcat(f, "-");
    var h := g + x12;
    SlotsConcat(g, x12);
  }

  /** `generateUUID`, with the 31 random draws given. */
  function GenerateUUID(nibbles: seq<Nibble>): string
    requires |nibbles| == 31
  {
    SlotsOfTemplate();
    Fill(UUIDTemplate, nibbles)
  }

  /** The layout of a version-4, variant-1 UUID in section 4.4 of RFC 4122, as
      lower-case text: 36 characters, dashes at 8, 13, 18 and 23, the version
      digit `4` at 14, one of `8`, `9`, `a`, `b` at 19, and lower-case
      hexadecimal everywhere else. */
  predicate IsVersion4(u: string) {
    && |u| == 36
    && u[8] == '-' && u[13] == '-' && u[18] == '-' && u[23] == '-'
    && u[14] == '4'
    && u[19] in "89ab"
    && forall i :: 0 <= i < 36 && i != 8 && i != 13 && i != 14 && i != 18 && i != 19 && i != 23
         ==> IsLowerHex(u[i])
  }

  /** Whatever the draws, the result has the version-4 layout. */
  lemma UUIDLayout(nibbles: seq<Nibble>)
    requires |nibbles| == 31
    ensures IsVersion4(GenerateUUID(nibbles))
  {
    SlotsOfTemplate();
    TemplateShape();
    FillLayout(UUIDTemplate, nibbles);
  }

  /** What `Fill` makes of any template laid out like the UUID template. */
  lemma FillLayout(t: string, nibbles: seq<Nibble>)
    requires |nibbles| == Slots(t)
    requires IsTemplateShape(t)
    ensures IsVersion4(Fill(t, nibbles))
  {
  }

  /** Where the template has its fixed characters and its slots. */
  predicate IsTemplateShape(t: string) {
    && |t| == 36
    && t[8] == '-' && t[13] == '-' && t[18] == '-' && t[23] == '-'
    && t[14] == '4' && t[19] == 'y'
    && forall i :: 0 <= i < 36 && i != 8 && i != 13 && i != 14 && i != 18 && i != 19 && i != 23
         ==> t[i] == 'x'
  }

  lemma TemplateShape()
    ensures IsTemplateShape(UUIDTemplate)
  {
    TemplateSegments();
    SegmentsShape();
  }

  lemma SegmentsShape()
    ensures IsTemplateShape(Xs(8) + "-" + Xs(4) + "-4" + Xs(3) + "-y" + Xs(3) + "-" + Xs(12))
  {
    var t := Xs(8) + "-" + Xs(4) + "-4" + Xs(3) + "-y" + Xs(3) + "-" + Xs(12);
    forall i | 0 <= i < 36 && i != 8 && i != 13 && i != 14 && i != 18 && i != 19 && i != 23
      ensures t[i] == 'x'
    {
      if i < 8 { assert t[i] == Xs(8)[i]; }
      else if i < 13 { assert t[i] == Xs(4)[i - 9]; }
      else if i < 18 { assert t[i] == Xs(3)[i - 15]; }
      else if i < 23 { assert t[i] == Xs(3)[i - 20]; }
      else { assert t[i] == Xs(12)[i - 24]; }
    }
  }

  /** Reads the draws back from a filled template: the digit value at every
      slot. */
  function ReadSlots(t: string, u: string): seq<Nibble>
    requires |u| == |t|
    requires forall i :: 0 <= i < |t| && (t[i] == 'x' || t[i] == 'y') ==> IsLowerHex(u[i])
    decreases |t|
  {
    if t == [] then []
    else if t[0] == 'x' || t[0] == 'y' then [HexValue(u[0])] + ReadSlots(t[1..], u[1..])
    else ReadSlots(t[1..], u[1..])
  }

  /** The draws as the result shows them: an `x` slot its own draw, a `y` slot
      the variant digit of its draw. */
  function Shown(t: string, nibbles: seq<Nibble>): seq<Nibble>
    requires |nibbles| == Slots(t)
    decreases |t|
  {
    if t == [] then []
    else if t[0] == 'x' then [nibbles[0]] + Shown(t[1..], nibbles[1..])
    else if t[0] == 'y' then [VariantOf(nibbles[0])] + Shown(t[1..], nibbles[1..])
    else Shown(t[1..], nibbles)
  }

  /** The fill loses nothing beyond the two bits the variant overwrites: every
      draw can be read back from its slot. */
  lemma {:induction false} ReadSlotsFill(t: string, nibbles: seq<Nibble>)
    requires |nibbles| == Slots(t)
    ensures ReadSlots(t, Fill(t, nibbles)) == Shown(t, nibbles)
    decreases |t|
  {
    if t != [] {
      var u := Fill(t, nibbles);
      if t[0] == 'x' {
        ReadSlotsFill(t[1..], nibbles[1..]);
        assert u[1..] == Fill(t[1..], nibbles[1..]);
        HexValueOfDigit(nibbles[0]);
        assert u[0] == HexDigit(nibbles[0]);
      } else if t[0] == 'y' {
        ReadSlotsFill(t[1..], nibbles[1..]);
        assert u[1..] == Fill(t[1..], nibbles[1..]);
        HexValueOfDigit(VariantOf(nibbles[0]));
        assert u[0] == HexDigit(VariantOf(nibbles[0]));
      } else {
        ReadSlotsFill(t[1..], nibbles);
        assert u[1..] == Fill(t[1..], nibbles);
      }
    }
  }

  // ---------------------------------------------------------------------------
  // Messages

  datatype Attachment = Attachment(url: string, name: string, contentType: string)

  /** A message as the UI shows it; `role` is whatever string the stored row
      holds, since the source's cast checks nothing. */
  datatype UIMessage = UIMessage(id: string, role: string, content: string, createdAt: int,
                                 attachments: Option<seq<Attachment>>)

  /** A stored message's content: a string, or structured JSON of type `V`. */
  datatype Content<V> = Text(s: string) | Structured(value: V)

  datatype DBMessage<V> = DBMessage(id: string, role: string, content: Content<V>, createdAt: int,
                                    attachments: Option<seq<Attachment>>)

  /** The content as the UI shows it: a string verbatim, anything else through
      `JSON.stringify` (a parameter here). */
  function ContentText<V>(c: Content<V>, stringify: V -> string): string {
    match c
    case Text(s) => s
    case Structured(v) => stringify(v)
  }

  /** `convertToUIMessages`: one UI message per stored one, in order, with id,
      role, creation time and attachments carried over. */
  function ConvertToUIMessages<V>(ms: seq<DBMessage<V>>, stringify: V -> string): (r: seq<UIMessage>)
    ensures |r| == |ms|
    ensures forall i :: 0 <= i < |ms| ==>
              && r[i].id == ms[i].id && r[i].role == ms[i].role && r[i].createdAt == ms[i].createdAt
              && r[i].attachments == ms[i].attachments
              && r[i].content == ContentText(ms[i].content, stringify)
    decreases |ms|
  {
    if ms == [] then []
    else
      var m := ms[0];
      [UIMessage(m.id, m.role, ContentText(m.content, stringify), m.createdAt, m.attachments)]
        + ConvertToUIMessages(ms[1..], stringify)
  }

  /** Converting two runs of messages is converting each. */
  lemma {:induction false} ConvertConcat<V>(a: seq<DBMessage<V>>, b: seq<DBMessage<V>>, stringify: V -> string)
    ensures ConvertToUIMessages(a + b, stringify) == ConvertToUIMessages(a, stringify) + ConvertToUIMessages(b, stringify)
    decreases |a|
  {
    if a == [] {
      assert a + b == b;
    } else {
      assert (a + b)[1..] == a[1..] + b;
      ConvertConcat(a[1..], b, stringify);
    }
  }

  /** The filter of `sanitizeUIMessages`: text that is not blank, or at least
      one attachment. */
  predicate Keeps(m: UIMessage) {
    Trim(m.content) != [] || (m.attachments.Some? && |m.attachments.value| > 0)
  }

  function SanitizeUIMessages(ms: seq<UIMessage>): seq<UIMessage> {
    Filter(ms, Keeps)
  }

  /** `sanitizeUIMessages` keeps exactly the messages with non-blank text or an
      attachment, in their original order. */
  lemma SanitizeKeepsExactly(ms: seq<UIMessage>)
    ensures forall m :: m in SanitizeUIMessages(ms) <==> m in ms && Keeps(m)
    ensures IsSubsequence(SanitizeUIMessages(ms), ms)
  {
    FilterIsSubsequence(ms, Keeps);
  }

  /** Sanitising twice is sanitising once. */
  lemma SanitizeIdempotent(ms: seq<UIMessage>)
    ensures SanitizeUIMessages(SanitizeUIMessages(ms)) == SanitizeUIMessages(ms)
  {
    FilterIdempotent(ms, Keeps);
  }

  /** A message whose text is only white space and which has no attachment is
      dropped. */
  lemma SanitizeDropsBlank(ms: seq<UIMessage>, m: UIMessage)
    requires forall k :: 0 <= k < |m.content| ==> IsSpace(m.content[k])
    requires m.attachments.None? || m.attachments.value == []
    ensures m !in SanitizeUIMessages(ms)
  {
    TrimEmptyIffBlank(m.content);
  }

  // ---------------------------------------------------------------------------
  // getDocumentTimestampByIndex

  /** The part of a stored document the helper reads. */
  datatype Document = Document(id: string, createdAt: int)

  /** What the helper yields: a fresh date (`new Date()`), a stored creation
      time, or a thrown `TypeError` (reading `createdAt` of `undefined`). */
  datatype Timestamp = FreshDate | CreatedAt(t: int) | TypeError

  /** `getDocumentTimestampByIndex` as written: the guard is `index > length`, so
      `index == length` (and any negative index) reads past the array. */
  function DocumentTimestampAsWritten(documents: Option<seq<Document>>, index: int): Timestamp {
    if documents.None? then FreshDate
    else if index > |documents.value| then FreshDate
    else if 0 <= index < |documents.value| then CreatedAt(documents.value[index].createdAt)
    else TypeError
  }

  /** The input that shows the off-by-one: one past the last document. */
  lemma TimestampOffByOne(documents: seq<Document>)
    ensures DocumentTimestampAsWritten(Some(documents), |documents|) == TypeError
  {
  }

  /** The helper with the guard the authors evidently meant, `index >= length`. */
  function DocumentTimestamp(documents: Option<seq<Document>>, index: int): (r: Timestamp)
    ensures index >= 0 ==> r != TypeError
    ensures documents.Some? && 0 <= index < |documents.value| <==> r.CreatedAt?
    ensures r.CreatedAt? ==> r == CreatedAt(documents.value[index].createdAt)
    ensures documents.None? || index >= |documents.value| ==> r == FreshDate
  {
    if documents.None? then FreshDate
    else if index >= |documents.value| then FreshDate
    else if 0 <= index then CreatedAt(documents.value[index].createdAt)
    else TypeError
  }

  /** The correction changes only the one index the old guard let through. */
  lemma TimestampCorrectionIsLocal(documents: Option<seq<Document>>, index: int)
    requires documents.None? || index != |documents.value|
    ensures DocumentTimestamp(documents, index) == DocumentTimestampAsWritten(documents, index)
  {
  }
}
