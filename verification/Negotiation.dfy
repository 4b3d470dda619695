/** Content negotiation: codings mentioned in Accept-Encoding, and the verdict on each. */
module Negotiation {
  import opened Bytes

  datatype AcceptedEncodings = AcceptedEncodings(gzip: bool, zstd: bool)

  datatype Coding = Gzip | Zstd | Wildcard

  datatype Verdicts = Verdicts(gzip: Option<bool>, zstd: Option<bool>, wildcard: Option<bool>)
  {
    function Of(coding: Coding): Option<bool> {
      match coding
      case Gzip => gzip
      case Zstd => zstd
      case Wildcard => wildcard
    }

    function With(coding: Coding, verdict: bool): Verdicts {
      match coding
      case Gzip => this.(gzip := Some(verdict))
      case Zstd => this.(zstd := Some(verdict))
      case Wildcard => this.(wildcard := Some(verdict))
    }
  }

  const UNDECIDED := Verdicts(None, None, None)

  predicate IsSpace(b: byte) {
    b == 32 || b == 9 || b == 10 || b == 12 || b == 13
  }

  function TrimStart(s: bytes): bytes {
    if s != [] && IsSpace(s[0]) then TrimStart(s[1..]) else s
  }

  function TrimEnd(s: bytes): bytes {
    if s != [] && IsSpace(s[|s| - 1]) then TrimEnd(s[..|s| - 1]) else s
  }

  function Trim(s: bytes): bytes {
    TrimEnd(TrimStart(s))
  }

  /** Whether `weight` is one of the spellings of zero. */
  predicate IsZeroWeight(weight: bytes) {
    || weight == [48]
    || (2 <= |weight| <= 5 && weight[0] == 48 && weight[1] == 46 && forall i :: 2 <= i < |weight| ==> weight[i] == 48)
  }

  /** A parameter called `q` whose value is some spelling of zero. */
  predicate IsZeroQvalue(param: bytes) {
    match IndexOf(param, 61)
    case None => false
    case Some(eq) => EqIgnoreCase(Trim(param[..eq]), [113]) && IsZeroWeight(Trim(param[eq + 1..]))
  }

  /** One element of a list, read: the coding it names and whether it lets it pass. */
  datatype Mention = Mention(coding: Coding, acceptable: bool)

  function CodingNamed(name: bytes): Option<Coding> {
    if EqIgnoreCase(name, Ascii("gzip")) || EqIgnoreCase(name, Ascii("x-gzip")) then Some(Gzip)
    else if EqIgnoreCase(name, Ascii("zstd")) then Some(Zstd)
    else if name == [42] then Some(Wildcard)
    else None
  }

  /** What an element says, if it names a coding this server knows. */
  function MentionOf(element: bytes): Option<Mention> {
    var parts := SplitAt(element, 59);
    match CodingNamed(Trim(parts[0]))
    case None => None
    case Some(coding) => Some(Mention(coding, !exists i :: 1 <= i < |parts| && IsZeroQvalue(parts[i])))
  }

  function ReadElement(v: Verdicts, element: bytes): Verdicts {
    match MentionOf(element)
    case None => v
    case Some(m) => v.With(m.coding, m.acceptable)
  }

  function ReadElements(v: Verdicts, elements: seq<bytes>): Verdicts {
    if elements == [] then v
    else ReadElement(ReadElements(v, elements[..|elements| - 1]), elements[|elements| - 1])
  }

  function ReadLines(v: Verdicts, lines: seq<bytes>): Verdicts {
    if lines == [] then v
    else ReadElements(ReadLines(v, lines[..|lines| - 1]), SplitAt(lines[|lines| - 1], 44))
  }

  function Accepted(v: Verdicts): AcceptedEncodings {
    AcceptedEncodings(Decide(v, Gzip), Decide(v, Zstd))
  }

  predicate Decide(v: Verdicts, coding: Coding) {
    match (v.Of(coding), v.wildcard)
    case (Some(named), _) => named
    case (None, Some(otherwise)) => otherwise
    case (None, None) => false
  }

  // ---------- Lines combine ----------

  function Join(lines: seq<bytes>): bytes
    requires lines != []
  {
    if |lines| == 1 then lines[0] else Join(lines[..|lines| - 1]) + [44] + lines[|lines| - 1]
  }

  lemma {:induction false} ReadElementsAppends(v: Verdicts, a: seq<bytes>, b: seq<bytes>)
    ensures ReadElements(v, a + b) == ReadElements(ReadElements(v, a), b)
  {
    if b == [] {
      assert a + b == a;
    } else {
      assert (a + b)[..|a + b| - 1] == a + b[..|b| - 1];
      ReadElementsAppends(v, a, b[..|b| - 1]);
    }
  }

  /** Reading several field lines one by one is reading their comma-joined list. */
  lemma {:induction false} LinesCombine(v: Verdicts, lines: seq<bytes>)
    requires lines != []
    ensures ReadLines(v, lines) == ReadLines(v, [Join(lines)])
  {
    var front, last := lines[..|lines| - 1], lines[|lines| - 1];
    OneLine(v, Join(lines));
    if |lines| == 1 {
      OneLine(v, last);
      assert lines == [last];
    } else {
      LinesCombine(v, front);
      OneLine(v, Join(front));
      SplitAtJoins(Join(front), 44, last);
      ReadElementsAppends(v, SplitAt(Join(front), 44), SplitAt(last, 44));
    }
  }

  lemma OneLine(v: Verdicts, line: bytes)
    ensures ReadLines(v, [line]) == ReadElements(v, SplitAt(line, 44))
  {
    assert [line][..0] == [];
    assert ReadLines(v, []) == v;
  }

  /** All elements of the field, which is empty without a line. */
  function ElementsOf(lines: seq<bytes>): seq<bytes> {
    if lines == [] then [] else SplitAt(Join(lines), 44)
  }

  // ---------- The last mention decides ----------

  /** Everything a list says about codings, in order. */
  function Mentions(elements: seq<bytes>): seq<Mention> {
    if elements == [] then []
    else
      var front := Mentions(elements[..|elements| - 1]);
      match MentionOf(elements[|elements| - 1])
      case None => front
      case Some(m) => front + [m]
  }

  /** The verdict of the last mention of `coding`. */
  ghost predicate LastSays(mentions: seq<Mention>, coding: Coding, verdict: bool) {
    exists i :: 0 <= i < |mentions| && mentions[i] == Mention(coding, verdict)
             && forall j :: i < j < |mentions| ==> mentions[j].coding != coding
  }

  ghost predicate Unmentioned(mentions: seq<Mention>, coding: Coding) {
    forall j :: 0 <= j < |mentions| ==> mentions[j].coding != coding
  }

  lemma {:induction false} VerdictIsLastMention(elements: seq<bytes>, coding: Coding)
    ensures match ReadElements(UNDECIDED, elements).Of(coding)
            case None => Unmentioned(Mentions(elements), coding)
            case Some(verdict) => LastSays(Mentions(elements), coding, verdict)
  {
    if elements != [] {
      var front, last := elements[..|elements| - 1], elements[|elements| - 1];
      VerdictIsLastMention(front, coding);
      var mention := MentionOf(last);
      if mention.Some? {
        MentionAdded(Mentions(front), ReadElements(UNDECIDED, front).Of(coding), mention.value, coding);
      }
    }
  }

  /** One more mention replaces the verdict on its own coding and leaves the others. */
  lemma MentionAdded(mentions: seq<Mention>, before: Option<bool>, m: Mention, coding: Coding)
    requires match before
             case None => Unmentioned(mentions, coding)
             case Some(verdict) => LastSays(mentions, coding, verdict)
    ensures m.coding == coding ==> LastSays(mentions + [m], coding, m.acceptable)
    ensures m.coding != coding && before.None? ==> Unmentioned(mentions + [m], coding)
    ensures m.coding != coding && before.Some? ==> LastSays(mentions + [m], coding, before.value)
  {
    var after := mentions + [m];
    if m.coding == coding {
      assert after[|mentions|] == m;
    } else if before.Some? {
      var i :| 0 <= i < |mentions| && mentions[i] == Mention(coding, before.value)
            && forall j :: i < j < |mentions| ==> mentions[j].coding != coding;
      assert after[i] == Mention(coding, before.value);
    }
  }

  lemma LastSaysOneThing(mentions: seq<Mention>, coding: Coding, verdict: bool)
    requires LastSays(mentions, coding, verdict)
    ensures !LastSays(mentions, coding, !verdict) && !Unmentioned(mentions, coding)
  {
  }

  /**
   A coding is accepted exactly when its own last mention is no refusal or, it never being
   mentioned, when the last wildcard is none; where the wildcard stands does not matter.
   */
  lemma AcceptedExactlyWhen(lines: seq<bytes>, coding: Coding)
    ensures var mentions := Mentions(ElementsOf(lines));
            Decide(ReadLines(UNDECIDED, lines), coding) <==>
            LastSays(mentions, coding, true) || (Unmentioned(mentions, coding) && LastSays(mentions, Wildcard, true))
  {
    var elements := ElementsOf(lines);
    if lines != [] {
      LinesCombine(UNDECIDED, lines);
      OneLine(UNDECIDED, Join(lines));
    }
    var v := ReadElements(UNDECIDED, elements);
    VerdictIsLastMention(elements, coding);
    VerdictIsLastMention(elements, Wildcard);
    if v.Of(coding).Some? {
      LastSaysOneThing(Mentions(elements), coding, v.Of(coding).value);
    }
    if v.wildcard.Some? {
      LastSaysOneThing(Mentions(elements), Wildcard, v.wildcard.value);
    }
  }

  // ---------- Weights ----------

  predicate IsDigit(b: byte) {
    48 <= b <= 57
  }

  function DigitValue(b: byte): nat
    requires IsDigit(b)
  {
    b as int - 48
  }

  /** The weights section 12.4.2 of RFC 9110 allows: 0 to 1 with at most three decimals. */
  predicate IsWeight(w: bytes) {
    && 1 <= |w| <= 5
    && (w[0] == 48 || w[0] == 49)
    && (|w| > 1 ==> w[1] == 46)
    && (forall i :: 2 <= i < |w| ==> IsDigit(w[i]))
    && (w[0] == 49 ==> forall i :: 2 <= i < |w| ==> w[i] == 48)
  }

  /** The weight in thousandths. */
  function Thousandths(w: bytes): nat
    requires IsWeight(w)
  {
    1000 * DigitValue(w[0])
    + (if |w| > 2 then 100 * DigitValue(w[2]) else 0)
    + (if |w| > 3 then 10 * DigitValue(w[3]) else 0)
    + (if |w| > 4 then DigitValue(w[4]) else 0)
  }

  predicate AllSpace(s: bytes) {
    forall i :: 0 <= i < |s| ==> IsSpace(s[i])
  }

  lemma {:induction false} TrimStartSkips(pad: bytes, core: bytes)
    requires AllSpace(pad)
    requires core != [] ==> !IsSpace(core[0])
    ensures TrimStart(pad + core) == core
  {
    if pad == [] {
      assert pad + core == core;
    } else {
      assert (pad + core)[1..] == pad[1..] + core;
      TrimStartSkips(pad[1..], core);
    }
  }

  lemma {:induction false} TrimEndSkips(core: bytes, pad: bytes)
    requires AllSpace(pad)
    requires core != [] && !IsSpace(core[|core| - 1])
    ensures TrimEnd(core + pad) == core
  {
    if pad == [] {
      assert core + pad == core;
    } else {
      assert (core + pad)[..|core + pad| - 1] == core + pad[..|pad| - 1];
      TrimEndSkips(core, pad[..|pad| - 1]);
    }
  }

  lemma TrimSkips(before: bytes, core: bytes, after: bytes)
    requires AllSpace(before) && AllSpace(after)
    requires core != [] && !IsSpace(core[0]) && !IsSpace(core[|core| - 1])
    ensures Trim(before + core + after) == core
  {
    assert before + core + after == before + (core + after);
    TrimStartSkips(before, core + after);
    TrimEndSkips(core, after);
  }

  lemma ZeroWeightIsZero(w: bytes)
    requires IsWeight(w)
    ensures IsZeroWeight(w) <==> Thousandths(w) == 0
  {
  }

  /** Among well-formed weights, however padded, exactly those of value zero refuse. */
  lemma ZeroWeightsRefuse(before: bytes, q: byte, w: bytes, after: bytes)
    requires AllSpace(before) && AllSpace(after) && (q == 113 || q == 81) && IsWeight(w)
    ensures IsZeroQvalue(before + [q, 61] + w + after) <==> Thousandths(w) == 0
  {
    var param := before + [q, 61] + w + after;
    var eq := |before| + 1;
    assert param[..eq] == before + [q] + [];
    assert 61 !in before by { assert !IsSpace(61); }
    IndexIs(param, 61, eq);
    hide IndexOf, IsZeroWeight, IsWeight, Thousandths, Trim, AllSpace;
    assert param[eq + 1..] == [] + w + after;
    TrimSkips(before, [q], []);
    TrimSkips([], w, after);
    assert Lower([q]) == [113] == Lower([113]);
    ZeroWeightIsZero(w);
  }

  // ---------- Grammatical elements ----------

  /** The name of a coding, or the wildcard: no space and no separator. */
  predicate IsToken(name: bytes) {
    name != [] && forall i :: 0 <= i < |name| ==> !IsSpace(name[i]) && name[i] != 59 && name[i] != 44
  }

  /** What is said of a coding, if it is one that this server knows. */
  function Said(name: bytes, acceptable: bool): Option<Mention> {
    match CodingNamed(name)
    case None => None
    case Some(coding) => Some(Mention(coding, acceptable))
  }

  lemma SpacesHoldNoSeparator(s: bytes)
    requires AllSpace(s)
    ensures 59 !in s
  {
    forall i | 0 <= i < |s|
      ensures s[i] != 59
    {
      assert IsSpace(s[i]);
    }
  }

  lemma WeightsHoldNoSeparator(w: bytes)
    requires IsWeight(w)
    ensures 59 !in w
  {
    forall i | 0 <= i < |w|
      ensures w[i] != 59
    {
      assert i >= 2 ==> IsDigit(w[i]);
    }
  }

  lemma PaddedTokenTrims(before: bytes, name: bytes, after: bytes)
    requires AllSpace(before) && AllSpace(after) && IsToken(name)
    ensures 59 !in before + name + after && Trim(before + name + after) == name
  {
    SpacesHoldNoSeparator(before);
    SpacesHoldNoSeparator(after);
    TrimSkips(before, name, after);
  }

  /** A padded coding alone is acceptable. */
  lemma PlainElementReads(before: bytes, name: bytes, after: bytes)
    requires AllSpace(before) && AllSpace(after) && IsToken(name)
    ensures MentionOf(before + name + after) == Said(name, true)
  {
    hide Trim, SplitAt, CodingNamed, IsZeroQvalue, IsToken;
    PaddedTokenTrims(before, name, after);
    SplitAtWhole(before + name + after, 59);
  }

  /** Spaces and tabs, the optional white space of section 5.6.3 of RFC 9110, are padding. */
  lemma BlanksArePadding(before: bytes, name: bytes, after: bytes)
    requires IsToken(name) && forall b :: b in before + after ==> b == 32 || b == 9
    ensures MentionOf(before + name + after) == Said(name, true)
  {
    var blanks := before + after;
    assert forall i :: 0 <= i < |blanks| ==> blanks[i] in blanks;
    assert forall i :: 0 <= i < |before| ==> before[i] == blanks[i];
    assert forall i :: 0 <= i < |after| ==> after[i] == blanks[|before| + i];
    PlainElementReads(before, name, after);
  }

  lemma TwoPartsRead(front: bytes, param: bytes)
    requires 59 !in front && 59 !in param
    ensures MentionOf(front + [59] + param) == Said(Trim(front), !IsZeroQvalue(param))
  {
    hide Trim, SplitAt, CodingNamed, IsZeroQvalue;
    SplitAtJoins(front, 59, param);
    SplitAtWhole(front, 59);
    SplitAtWhole(param, 59);
    var parts := SplitAt(front + [59] + param, 59);
    assert parts == [front] + [param];
    assert |parts| == 2 && parts[0] == front && parts[1] == param;
    assert (exists i :: 1 <= i < |parts| && IsZeroQvalue(parts[i])) <==> IsZeroQvalue(param);
  }

  /** A padded coding with a padded weight behind its semicolon is acceptable exactly if the weight is not zero. */
  lemma WeightedElementReads(before: bytes, name: bytes, after: bytes, pad: bytes, q: byte, w: bytes, end: bytes)
    requires AllSpace(before) && AllSpace(after) && IsToken(name)
    requires AllSpace(pad) && AllSpace(end) && (q == 113 || q == 81) && IsWeight(w)
    ensures MentionOf(before + name + after + [59] + (pad + [q, 61] + w + end)) == Said(name, Thousandths(w) != 0)
  {
    var front, param := before + name + after, pad + [q, 61] + w + end;
    PaddedTokenTrims(before, name, after);
    SpacesHoldNoSeparator(pad);
    SpacesHoldNoSeparator(end);
    WeightsHoldNoSeparator(w);
    assert 59 !in [q, 61];
    ZeroWeightsRefuse(pad, q, w, end);
    hide Trim, MentionOf, Said, IsZeroQvalue, IsToken, IsWeight, Thousandths, AllSpace;
    TwoPartsRead(front, param);
  }
}
