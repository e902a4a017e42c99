/** GS1 mode of `DataMatrixEncoder`: the content is stripped of spaces, every
    element "(AI)data" found in it is written out as its digits, a variable
    length field is closed with FNC1, and the assembled text, which starts with
    FNC1, goes through ASCII encodation with FNC1 passed through. */
module Gs1 {
  import opened Types
  import opened Ascii

  /** `content.Replace(" ", string.Empty)`. */
  function RemoveSpaces(s: Text): (r: Text)
    ensures forall i :: 0 <= i < |r| ==> r[i] != Space
    ensures multiset(r) == multiset(s)[Space := 0]
    decreases |s|
  {
    if s == [] then []
    else
      assert s == [s[0]] + s[1..];
      if s[0] == Space then RemoveSpaces(s[1..]) else [s[0]] + RemoveSpaces(s[1..])
  }

  /** Removing spaces keeps every other code unit in its place in the order. */
  lemma {:induction false} RemoveSpacesConcat(s: Text, t: Text)
    ensures RemoveSpaces(s + t) == RemoveSpaces(s) + RemoveSpaces(t)
    decreases |s|
  {
    if s == [] {
      assert s + t == t;
    } else {
      assert (s + t)[1..] == s[1..] + t;
      RemoveSpacesConcat(s[1..], t);
    }
  }

  /** A text without spaces is left as it is; hence removing spaces twice is
      the same as removing them once. */
  lemma {:induction false} RemoveSpacesIdentity(s: Text)
    requires forall i :: 0 <= i < |s| ==> s[i] != Space
    ensures RemoveSpaces(s) == s
    decreases |s|
  {
    if s != [] {
      RemoveSpacesIdentity(s[1..]);
    }
  }

  /** One match of `\((?<ai>[0-9]+)\)(?<data>[0-9]+)`. */
  datatype Element = Element(ai: Text, data: Text)

  predicate WellFormed(e: Element) {
    |e.ai| > 0 && |e.data| > 0 && AllDigits(e.ai) && AllDigits(e.data)
  }

  /** The text "(" ai ")" data that an element is read from. */
  function ElementSource(e: Element): Text {
    [OpenParen] + e.ai + [CloseParen] + e.data
  }

  /** Length of the longest prefix of ASCII digits (the greedy `[0-9]+`). */
  function DigitRun(s: Text): (n: nat)
    ensures n <= |s| && AllDigits(s[..n])
    ensures n < |s| ==> !IsDigit(s[n])
    decreases |s|
  {
    if s != [] && IsDigit(s[0]) then 1 + DigitRun(s[1..]) else 0
  }

  /** The greedy match of the element pattern at the start of `s`, with the
      number of code units it spans. */
  function MatchPrefix(s: Text): (m: Option<(Element, nat)>)
    ensures m.Some? ==> WellFormed(m.value.0) && 0 < m.value.1 <= |s|
    ensures m.Some? ==> s[..m.value.1] == ElementSource(m.value.0)
    ensures m.Some? && m.value.1 < |s| ==> !IsDigit(s[m.value.1])
  {
    if |s| == 0 || s[0] != OpenParen then None
    else
      var a := DigitRun(s[1..]);
      if a == 0 || 1 + a >= |s| || s[1 + a] != CloseParen then None
      else
        var d := DigitRun(s[2 + a..]);
        if d == 0 then None
        else
          var e := Element(s[1..1 + a], s[2 + a..2 + a + d]);
          assert s[1..1 + a] == s[1..][..a];
          assert s[2 + a..2 + a + d] == s[2 + a..][..d];
          assert s[..2 + a + d] == ElementSource(e);
          Some((e, 2 + a + d))
  }

  /** Whenever `s` starts with an element whose data is not followed by a
      digit, the scanner matches that element and nothing else. */
  lemma MatchPrefixComplete(e: Element, rest: Text)
    requires WellFormed(e)
    requires rest == [] || !IsDigit(rest[0])
    ensures MatchPrefix(ElementSource(e) + rest) == Some((e, |ElementSource(e)|))
  {
    var s := ElementSource(e) + rest;
    var a, d := |e.ai|, |e.data|;
    SourceLayout(e, rest);
    DigitRunExact(e.ai, [CloseParen] + (e.data + rest));
    DigitRunExact(e.data, rest);
    MatchPrefixAt(s, a, d);
  }

  /** Where the parts of an element's written form sit, whatever follows it. */
  lemma SourceLayout(e: Element, rest: Text)
    ensures var s, a, d := ElementSource(e) + rest, |e.ai|, |e.data|;
      && |s| == 2 + a + d + |rest| && |ElementSource(e)| == 2 + a + d
      && s[0] == OpenParen && s[1 + a] == CloseParen
      && s[1..] == e.ai + ([CloseParen] + (e.data + rest))
      && s[2 + a..] == e.data + rest
      && s[1..1 + a] == e.ai && s[2 + a..2 + a + d] == e.data
  {
    var a := |e.ai|;
    var tail := [CloseParen] + (e.data + rest);
    var s := [OpenParen] + (e.ai + tail);
    assert ElementSource(e) + rest == s;
    assert s[1..] == e.ai + tail;
    assert s[2 + a..] == e.data + rest;
  }

  /** The scanner's match once the two digit runs are known. */
  lemma MatchPrefixAt(s: Text, a: nat, d: nat)
    requires 0 < a && 0 < d && 2 + a + d <= |s|
    requires s[0] == OpenParen && s[1 + a] == CloseParen
    requires DigitRun(s[1..]) == a && DigitRun(s[2 + a..]) == d
    ensures MatchPrefix(s) == Some((Element(s[1..1 + a], s[2 + a..2 + a + d]), 2 + a + d))
  {
  }

  /** The digit run of an all-digit prefix followed by a non-digit is that prefix. */
  lemma {:induction false} DigitRunExact(ds: Text, rest: Text)
    requires AllDigits(ds)
    requires rest == [] || !IsDigit(rest[0])
    ensures DigitRun(ds + rest) == |ds|
    decreases |ds|
  {
    if ds == [] {
      assert ds + rest == rest;
    } else {
      assert (ds + rest)[1..] == ds[1..] + rest;
      DigitRunExact(ds[1..], rest);
    }
  }

  /** `Regex.Matches`, read as a scanner: try the pattern at the current
      position; on a match continue after it, otherwise skip one code unit.
      Code units outside matches are dropped. */
  function Scan(s: Text): (es: seq<Element>)
    ensures forall i :: 0 <= i < |es| ==> WellFormed(es[i])
    decreases |s|
  {
    if s == [] then []
    else
      match MatchPrefix(s)
      case Some((e, n)) => [e] + Scan(s[n..])
      case None => Scan(s[1..])
  }

  /** A text made of elements written one after another. */
  function Format(es: seq<Element>): Text
    decreases |es|
  {
    if es == [] then [] else ElementSource(es[0]) + Format(es[1..])
  }

  /** Round trip: the scanner recovers every well-formed element list from its
      written form. */
  lemma {:induction false} ScanFormat(es: seq<Element>)
    requires forall i :: 0 <= i < |es| ==> WellFormed(es[i])
    ensures Scan(Format(es)) == es
    decreases |es|
  {
    if es != [] {
      var src := ElementSource(es[0]);
      var rest := Format(es[1..]);
      assert Format(es) == src + rest;
      FormatStart(es[1..]);
      MatchPrefixComplete(es[0], rest);
      ScanStep(src + rest, es[0], |src|);
      assert (src + rest)[|src|..] == rest;
      ScanFormat(es[1..]);
      assert es == [es[0]] + es[1..];
    }
  }

  /** Written elements start with an opening parenthesis. */
  lemma FormatStart(es: seq<Element>)
    ensures Format(es) == [] || Format(es)[0] == OpenParen
  {
  }

  /** On a match the scanner keeps the element and continues after it. */
  lemma ScanStep(s: Text, e: Element, n: nat)
    requires MatchPrefix(s) == Some((e, n))
    ensures Scan(s) == [e] + Scan(s[n..])
  {
  }

  /** Text without an opening parenthesis holds no element. */
  lemma {:induction false} ScanWithoutParen(s: Text)
    requires forall i :: 0 <= i < |s| ==> s[i] != OpenParen
    ensures Scan(s) == []
    decreases |s|
  {
    if s != [] {
      ScanWithoutParen(s[1..]);
    }
  }

  /** Code units before the first "(" are dropped: the scanner steps over them
      one at a time and then scans the rest as if they were not there. */
  lemma {:induction false} ScanSkipsPrefix(s: Text, n: nat)
    requires n <= |s|
    requires forall i :: 0 <= i < n ==> s[i] != OpenParen
    ensures Scan(s) == Scan(s[n..])
    decreases n
  {
    if n > 0 {
      ScanSkipOne(s);
      ScanSkipsPrefix(s[1..], n - 1);
      assert s[1..][n - 1..] == s[n..];
    }
  }

  /** Without "(" at the cursor the pattern fails and one code unit is skipped. */
  lemma ScanSkipOne(s: Text)
    requires s != [] && s[0] != OpenParen
    ensures Scan(s) == Scan(s[1..])
  {
    assert MatchPrefix(s) == None;
  }

  /** A written element not followed by a digit is found first, and scanning
      goes on right after it, so elements are reported in text order. */
  lemma ScanElement(e: Element, rest: Text)
    requires WellFormed(e)
    requires rest == [] || !IsDigit(rest[0])
    ensures Scan(ElementSource(e) + rest) == [e] + Scan(rest)
  {
    MatchPrefixComplete(e, rest);
    ScanStep(ElementSource(e) + rest, e, |ElementSource(e)|);
    assert (ElementSource(e) + rest)[|ElementSource(e)|..] == rest;
  }

  /** Leading text without "(" is dropped, and the elements written after it
      are all recovered, in order. */
  lemma ScanAfterPrefix(junk: Text, es: seq<Element>)
    requires forall i :: 0 <= i < |junk| ==> junk[i] != OpenParen
    requires forall i :: 0 <= i < |es| ==> WellFormed(es[i])
    ensures Scan(junk + Format(es)) == es
  {
    ScanSkipsPrefix(junk + Format(es), |junk|);
    assert (junk + Format(es))[|junk|..] == Format(es);
    ScanFormat(es);
  }

  /** An element whose application identifier has a predefined length that
      the matched length differs from is a variable-length field and is closed
      by FNC1. */
  predicate NeedsSeparator(k: Gs1Constants, e: Element) {
    e.ai in k.aiLengths && k.aiLengths[e.ai] != |e.ai| + |e.data|
  }

  /** What the loop body appends to the builder for one element. */
  function ElementText(k: Gs1Constants, e: Element): Text {
    e.ai + e.data + (if NeedsSeparator(k, e) then [k.fnc1] else [])
  }

  function ElementsText(k: Gs1Constants, es: seq<Element>): Text
    decreases |es|
  {
    if es == [] then [] else ElementsText(k, es[..|es| - 1]) + ElementText(k, es[|es| - 1])
  }

  /** The element string that `EncodeGs1` assembles before ASCII encodation. */
  function Gs1Text(k: Gs1Constants, content: Text): Text {
    [k.fnc1] + ElementsText(k, Scan(RemoveSpaces(content)))
  }

  /** The codewords `EncodeGs1` produces. */
  function Gs1Codewords(k: Gs1Constants, content: Text): seq<Byte> {
    AsciiCodewords(k, Gs1Text(k, content), true)
  }

  method EncodeGs1(k: Gs1Constants, content: Text) returns (result: seq<Byte>)
    ensures result == Gs1Codewords(k, content)
  {
    var encoded := AssembleElements(k, Scan(RemoveSpaces(content)));
    result := EncodeText(k, encoded, true);
  }

  /** The `StringBuilder` loop of `EncodeGs1`: FNC1, then for each match its
      AI, its data and, when needed, the separator. */
  method AssembleElements(k: Gs1Constants, matches: seq<Element>) returns (encoded: Text)
    ensures encoded == [k.fnc1] + ElementsText(k, matches)
  {
    encoded := [k.fnc1];
    for j := 0 to |matches|
      invariant encoded == [k.fnc1] + ElementsText(k, matches[..j])
    {
      var e := matches[j];
      ghost var before := encoded;
      encoded := encoded + e.ai;
      encoded := encoded + e.data;
      if e.ai in k.aiLengths && k.aiLengths[e.ai] != |e.ai| + |e.data| {
        encoded := encoded + [k.fnc1];
      }
      assert encoded == before + ElementText(k, e);
      ElementsTextStep(k, matches, j);
      Concat3([k.fnc1], ElementsText(k, matches[..j]), ElementText(k, e));
    }
    assert matches[..|matches|] == matches;
  }

  /** One more element appends that element's text. */
  lemma ElementsTextStep(k: Gs1Constants, es: seq<Element>, j: nat)
    requires j < |es|
    ensures ElementsText(k, es[..j + 1]) == ElementsText(k, es[..j]) + ElementText(k, es[j])
  {
    assert es[..j + 1][..j] == es[..j];
  }

  /** The assembled text holds only digits and FNC1. */
  predicate OverGs1Alphabet(k: Gs1Constants, t: Text) {
    forall i :: 0 <= i < |t| ==> IsDigit(t[i]) || t[i] == k.fnc1
  }

  lemma {:induction false} ElementsTextAlphabet(k: Gs1Constants, es: seq<Element>)
    requires forall i :: 0 <= i < |es| ==> WellFormed(es[i])
    ensures OverGs1Alphabet(k, ElementsText(k, es))
    ensures |ElementsText(k, es)| >= 2 * |es|
    decreases |es|
  {
    if es != [] {
      ElementsTextAlphabet(k, es[..|es| - 1]);
    }
  }

  lemma Gs1TextAlphabet(k: Gs1Constants, content: Text)
    ensures OverGs1Alphabet(k, Gs1Text(k, content))
  {
    ElementsTextAlphabet(k, Scan(RemoveSpaces(content)));
  }

  /** Every codeword is FNC1, a single digit (49..58) or a digit pair
      (130..229). */
  predicate Gs1Kinds(k: Gs1Constants, cws: seq<Byte>) {
    forall j :: 0 <= j < |cws| ==> cws[j] == k.fnc1 || 49 <= cws[j] <= 58 || 130 <= cws[j] <= 229
  }

  /** With FNC1 passed through, a text of digits and FNC1 encodes to codewords
      of those kinds only. */
  lemma {:induction false} AsciiOverGs1AlphabetKinds(k: Gs1Constants, t: Text)
    requires ValidConstants(k) && OverGs1Alphabet(k, t)
    ensures Gs1Kinds(k, AsciiCodewords(k, t, true))
    decreases |t|
  {
    if t != [] {
      var n := if |t| >= 2 && IsDigit(t[0]) && IsDigit(t[1]) then 2 else 1;
      var head := if n == 2 then [DigitPair(t[0], t[1])] else CharCodewords(k, t[0], true);
      var tail := AsciiCodewords(k, t[n..], true);
      assert AsciiCodewords(k, t, true) == head + tail;
      FirstTokenKinds(k, t, n);
      AlphabetSuffix(k, t, n);
      AsciiOverGs1AlphabetKinds(k, t[n..]);
      KindsConcat(k, head, tail);
    }
  }

  /** The first token of a text of digits and FNC1 gives codewords of those
      kinds. */
  lemma FirstTokenKinds(k: Gs1Constants, t: Text, n: nat)
    requires ValidConstants(k) && OverGs1Alphabet(k, t)
    requires n == (if |t| >= 2 && IsDigit(t[0]) && IsDigit(t[1]) then 2 else 1) <= |t|
    ensures Gs1Kinds(k, if n == 2 then [DigitPair(t[0], t[1])] else CharCodewords(k, t[0], true))
  {
    if n == 1 {
      assert CharCodewords(k, t[0], true) == (if t[0] == k.fnc1 then [k.fnc1] else [t[0] + 1]);
    }
  }

  lemma KindsConcat(k: Gs1Constants, a: seq<Byte>, b: seq<Byte>)
    requires Gs1Kinds(k, a) && Gs1Kinds(k, b)
    ensures Gs1Kinds(k, a + b)
  {
    forall j | 0 <= j < |a + b| ensures (a + b)[j] == k.fnc1 || 49 <= (a + b)[j] <= 58 || 130 <= (a + b)[j] <= 229 {
      if j >= |a| {
        assert (a + b)[j] == b[j - |a|];
      }
    }
  }

  /** ... and to as many FNC1 codewords as the text has FNC1s. */
  lemma {:induction false} AsciiOverGs1AlphabetFnc1Count(k: Gs1Constants, t: Text)
    requires ValidConstants(k) && OverGs1Alphabet(k, t)
    ensures Count(AsciiCodewords(k, t, true), k.fnc1) == Count(t, k.fnc1)
    decreases |t|
  {
    if t != [] {
      var n := if |t| >= 2 && IsDigit(t[0]) && IsDigit(t[1]) then 2 else 1;
      var head := if n == 2 then [DigitPair(t[0], t[1])] else CharCodewords(k, t[0], true);
      var tail := AsciiCodewords(k, t[n..], true);
      assert AsciiCodewords(k, t, true) == head + tail;
      FirstTokenFnc1Count(k, t, n);
      AlphabetSuffix(k, t, n);
      AsciiOverGs1AlphabetFnc1Count(k, t[n..]);
      CountConcat(head, tail, k.fnc1);
      CountConcat(t[..n], t[n..], k.fnc1);
      assert t == t[..n] + t[n..];
    }
  }

  /** The first token of a text of digits and FNC1 holds as many FNC1s as
      its codewords do. */
  lemma FirstTokenFnc1Count(k: Gs1Constants, t: Text, n: nat)
    requires ValidConstants(k) && OverGs1Alphabet(k, t)
    requires n == (if |t| >= 2 && IsDigit(t[0]) && IsDigit(t[1]) then 2 else 1) <= |t|
    ensures Count(if n == 2 then [DigitPair(t[0], t[1])] else CharCodewords(k, t[0], true), k.fnc1)
      == Count(t[..n], k.fnc1)
  {
    if n == 2 {
      assert t[..n] == [t[0]] + [t[1]];
      CountConcat([t[0]], [t[1]], k.fnc1);
      assert Count([t[0]], k.fnc1) == 0 && Count([t[1]], k.fnc1) == 0;
    } else {
      assert t[..n] == [t[0]];
      assert CharCodewords(k, t[0], true) == (if t[0] == k.fnc1 then [k.fnc1] else [t[0] + 1]);
    }
  }

  lemma AlphabetSuffix(k: Gs1Constants, t: Text, n: nat)
    requires n <= |t| && OverGs1Alphabet(k, t)
    ensures OverGs1Alphabet(k, t[n..])
  {
    forall i | 0 <= i < |t[n..]| ensures IsDigit(t[n..][i]) || t[n..][i] == k.fnc1 {
      assert t[n..][i] == t[n + i];
    }
  }

  /** The number of elements that are closed by a separator FNC1. */
  function SeparatorCount(k: Gs1Constants, es: seq<Element>): nat
    decreases |es|
  {
    if es == [] then 0
    else SeparatorCount(k, es[..|es| - 1]) + (if NeedsSeparator(k, es[|es| - 1]) then 1 else 0)
  }

  lemma {:induction false} ElementsTextFnc1Count(k: Gs1Constants, es: seq<Element>)
    requires ValidConstants(k)
    requires forall i :: 0 <= i < |es| ==> WellFormed(es[i])
    ensures Count(ElementsText(k, es), k.fnc1) == SeparatorCount(k, es)
    decreases |es|
  {
    if es != [] {
      var e := es[|es| - 1];
      ElementsTextFnc1Count(k, es[..|es| - 1]);
      DigitsHaveNoFnc1(k, e.ai);
      DigitsHaveNoFnc1(k, e.data);
      var sep: Text := if NeedsSeparator(k, e) then [k.fnc1] else [];
      CountConcat(e.ai, e.data, k.fnc1);
      CountConcat(e.ai + e.data, sep, k.fnc1);
      CountConcat(ElementsText(k, es[..|es| - 1]), ElementText(k, e), k.fnc1);
    }
  }

  lemma {:induction false} DigitsHaveNoFnc1(k: Gs1Constants, ds: Text)
    requires ValidConstants(k) && AllDigits(ds)
    ensures Count(ds, k.fnc1) == 0
    decreases |ds|
  {
    if ds != [] {
      DigitsHaveNoFnc1(k, ds[1..]);
    }
  }

  /** The output begins with FNC1, and it is exactly [FNC1] if and only if
      the content holds no element once spaces are removed. */
  lemma Gs1Prefix(k: Gs1Constants, content: Text)
    requires ValidConstants(k)
    ensures |Gs1Codewords(k, content)| >= 1 && Gs1Codewords(k, content)[0] == k.fnc1
    ensures Gs1Codewords(k, content) == [k.fnc1] <==> Scan(RemoveSpaces(content)) == []
  {
    var es := Scan(RemoveSpaces(content));
    var body := ElementsText(k, es);
    var tail := AsciiCodewords(k, body, true);
    ElementsTextAlphabet(k, es);
    assert es == [] ==> body == [];
    ConcatAtBoundary(k, [k.fnc1], body, true);
    PassedFnc1(k);
    LengthBounds(k, body, true);
    assert Gs1Codewords(k, content) == [k.fnc1] + tail;
    assert |[k.fnc1] + tail| == 1 + |tail|;
  }

  /** A lone FNC1 passed through is the single codeword FNC1. */
  lemma PassedFnc1(k: Gs1Constants)
    ensures AsciiCodewords(k, [k.fnc1], true) == [k.fnc1]
  {
    assert [k.fnc1][1..] == [];
  }

  /** Every codeword of the output is FNC1, a single digit or a digit pair. */
  lemma Gs1CodewordKinds(k: Gs1Constants, content: Text)
    requires ValidConstants(k)
    ensures forall j :: 0 <= j < |Gs1Codewords(k, content)| ==>
      var b := Gs1Codewords(k, content)[j];
      b == k.fnc1 || 49 <= b <= 58 || 130 <= b <= 229
  {
    Gs1TextAlphabet(k, content);
    AsciiOverGs1AlphabetKinds(k, Gs1Text(k, content));
  }

  /** Every element contributes one FNC1 codeword exactly when it needs a
      separator; an element whose application identifier has no predefined
      length never gets one. */
  lemma Gs1SeparatorCodewords(k: Gs1Constants, content: Text)
    requires ValidConstants(k)
    ensures Count(Gs1Codewords(k, content), k.fnc1) == 1 + SeparatorCount(k, Scan(RemoveSpaces(content)))
  {
    var es := Scan(RemoveSpaces(content));
    Gs1TextAlphabet(k, content);
    AsciiOverGs1AlphabetFnc1Count(k, Gs1Text(k, content));
    ElementsTextFnc1Count(k, es);
    CountConcat([k.fnc1], ElementsText(k, es), k.fnc1);
  }

  /** The codewords read back as the assembled element string. */
  lemma Gs1RoundTrip(k: Gs1Constants, content: Text)
    requires ValidConstants(k)
    ensures DecodeAscii(k, Gs1Codewords(k, content), true) == Gs1Text(k, content)
  {
    Gs1TextAlphabet(k, content);
    DecodeEncode(k, Gs1Text(k, content), [], true);
    assert Gs1Codewords(k, content) + [] == Gs1Codewords(k, content);
  }

  /** "(01)12(21)3" where "01" has predefined length 16 and "21" has none:
      the first element is closed by FNC1 and the second is not. */
  lemma Gs1Example(k: Gs1Constants)
    requires k.fnc1 == 232 && k.upperShift == 235
    requires k.aiLengths.Keys == {[48, 49]} && k.aiLengths[[48, 49]] == 16
    ensures Gs1Codewords(k, [40, 48, 49, 41, 49, 50, 40, 50, 49, 41, 51]) == [232, 131, 142, 232, 151, 52]
  {
    var e1 := Element([48, 49], [49, 50]);
    var e2 := Element([50, 49], [51]);
    ExampleScan([40, 48, 49, 41, 49, 50, 40, 50, 49, 41, 51], e1, e2);
    ExampleText(k, e1, e2);
    ExampleCodewords(k);
  }

  /** The example text reads as its two elements. */
  lemma ExampleScan(s: Text, e1: Element, e2: Element)
    requires s == [40, 48, 49, 41, 49, 50, 40, 50, 49, 41, 51]
    requires e1 == Element([48, 49], [49, 50]) && e2 == Element([50, 49], [51])
    ensures Scan(RemoveSpaces(s)) == [e1, e2]
  {
    ExampleFormat(e1, e2);
    ExampleChars(s, e1, e2);
    RemoveSpacesIdentity(s);
    ScanFormat([e1, e2]);
  }

  /** The example holds no space, and both of its elements are well formed. */
  lemma ExampleChars(s: Text, e1: Element, e2: Element)
    requires s == [40, 48, 49, 41, 49, 50, 40, 50, 49, 41, 51]
    requires e1 == Element([48, 49], [49, 50]) && e2 == Element([50, 49], [51])
    ensures forall i :: 0 <= i < |s| ==> s[i] != Space
    ensures forall i :: 0 <= i < |[e1, e2]| ==> WellFormed([e1, e2][i])
  {
  }

  /** The example text is the written form of its two elements. */
  lemma ExampleFormat(e1: Element, e2: Element)
    requires e1 == Element([48, 49], [49, 50]) && e2 == Element([50, 49], [51])
    ensures Format([e1, e2]) == [40, 48, 49, 41, 49, 50, 40, 50, 49, 41, 51]
  {
    assert [e1, e2][1..] == [e2];
    assert [e2][1..] == [];
    assert Format([e2]) == ElementSource(e2) + Format([]);
    assert Format([e1, e2]) == ElementSource(e1) + Format([e2]);
  }

  /** The element string of the example: the separator follows "0112" only. */
  lemma ExampleText(k: Gs1Constants, e1: Element, e2: Element)
    requires k.fnc1 == 232
    requires k.aiLengths.Keys == {[48, 49]} && k.aiLengths[[48, 49]] == 16
    requires e1 == Element([48, 49], [49, 50]) && e2 == Element([50, 49], [51])
    ensures ElementsText(k, [e1, e2]) == [48, 49, 49, 50, 232, 50, 49, 51]
  {
    assert NeedsSeparator(k, e1);
    assert ElementText(k, e1) == [48, 49, 49, 50, 232];
    assert [50, 49] !in k.aiLengths.Keys;
    assert ElementText(k, e2) == [50, 49, 51];
    assert [e1, e2][..1] == [e1];
    assert [e1][..0] == [];
    assert ElementsText(k, [e1]) == ElementsText(k, []) + ElementText(k, e1);
    assert ElementsText(k, [e1, e2]) == ElementsText(k, [e1]) + ElementText(k, e2);
  }

  /** ASCII encodation of the example's element string. */
  lemma ExampleCodewords(k: Gs1Constants)
    requires k.fnc1 == 232 && k.upperShift == 235
    ensures AsciiCodewords(k, [232, 48, 49, 49, 50, 232, 50, 49, 51], true) == [232, 131, 142, 232, 151, 52]
  {
    var a: Text := [48, 49, 49, 50];
    var b: Text := [50, 49, 51];
    assert [232, 48, 49, 49, 50, 232, 50, 49, 51] == [k.fnc1] + (a + ([k.fnc1] + b));
    ConcatAtBoundary(k, [k.fnc1], b, true);
    ConcatAtBoundary(k, a, [k.fnc1] + b, true);
    ConcatAtBoundary(k, [k.fnc1], a + ([k.fnc1] + b), true);
    PassedFnc1(k);
    AllDigitsEncoding(k, a, true);
    AllDigitsEncoding(k, b, true);
  }
}
