/** ASCII encodation of Data Matrix (ISO/IEC 16022, section 5.2.3), as done by
    `DataMatrixEncoder.EncodeText`: two adjacent digits share one codeword, a
    code unit above 127 is escaped with Upper Shift, any other code unit c
    becomes c + 1, and with `skipFnc1` a literal FNC1 passes through as itself. */
module Ascii {
  import opened Types

  /** Numeric pair compaction: the codeword for two adjacent digits. */
  function DigitPair(c1: CodeUnit, c2: CodeUnit): (b: Byte)
    requires IsDigit(c1) && IsDigit(c2)
    ensures 130 <= b <= 229
    ensures Zero + (b - 130) / 10 == c1 && Zero + (b - 130) % 10 == c2
  {
    ((c1 - Zero) * 10 + (c2 - Zero) + 130) % 256
  }

  /** The codewords for one code unit that is not paired with the next one.
      Every `(byte)` cast of the source is an explicit `% 256`. */
  function CharCodewords(k: Gs1Constants, c: CodeUnit, skipFnc1: bool): seq<Byte>
  {
    if c == k.fnc1 && skipFnc1 then [c % 256]
    else if c > 127 then [k.upperShift, (c - 127) % 256]
    else [(c + 1) % 256]
  }

  /** The codewords `EncodeText` produces for `s`, read greedily from the left. */
  function AsciiCodewords(k: Gs1Constants, s: Text, skipFnc1: bool): seq<Byte>
    decreases |s|
  {
    if s == [] then []
    else if |s| >= 2 && IsDigit(s[0]) && IsDigit(s[1]) then
      [DigitPair(s[0], s[1])] + AsciiCodewords(k, s[2..], skipFnc1)
    else
      CharCodewords(k, s[0], skipFnc1) + AsciiCodewords(k, s[1..], skipFnc1)
  }

  /** The encoder: one pass over `content` with a cursor that moves by one or
      two code units per step. */
  method EncodeText(k: Gs1Constants, content: Text, skipFnc1: bool) returns (result: seq<Byte>)
    ensures result == AsciiCodewords(k, content, skipFnc1)
  {
    result := [];
    var i := 0;
    assert content[i..] == content;
    while i < |content|
      invariant 0 <= i <= |content|
      invariant result + AsciiCodewords(k, content[i..], skipFnc1) == AsciiCodewords(k, content, skipFnc1)
      decreases |content| - i
    {
      ghost var rest, before := content[i..], result;
      var c := content[i];
      i := i + 1;
      if IsDigit(c) && i < |content| && IsDigit(content[i]) {
        var c2 := content[i];
        i := i + 1;
        assert rest[2..] == content[i..];
        ghost var b := DigitPair(c, c2);
        assert AsciiCodewords(k, rest, skipFnc1) == [b] + AsciiCodewords(k, content[i..], skipFnc1);
        result := result + [((c - Zero) * 10 + (c2 - Zero) + 130) % 256];
        assert result == before + [b];
        Concat3(before, [b], AsciiCodewords(k, content[i..], skipFnc1));
      } else {
        assert rest[1..] == content[i..];
        ghost var cws := CharCodewords(k, c, skipFnc1);
        assert AsciiCodewords(k, rest, skipFnc1) == cws + AsciiCodewords(k, content[i..], skipFnc1);
        if c == k.fnc1 && skipFnc1 {
          result := result + [c % 256];
        } else if c > 127 {
          result := result + [k.upperShift];
          result := result + [(c - 127) % 256];
        } else {
          result := result + [(c + 1) % 256];
        }
        assert result == before + cws;
        Concat3(before, cws, AsciiCodewords(k, content[i..], skipFnc1));
      }
    }
    assert content[i..] == [];
  }

  /** Each step consumes one or two code units and emits one or two codewords,
      so the output is between half and twice as long as the input. */
  lemma {:induction false} LengthBounds(k: Gs1Constants, s: Text, skipFnc1: bool)
    ensures (|s| + 1) / 2 <= |AsciiCodewords(k, s, skipFnc1)| <= 2 * |s|
    ensures s == [] <==> AsciiCodewords(k, s, skipFnc1) == []
    decreases |s|
  {
    if s == [] {
    } else if |s| >= 2 && IsDigit(s[0]) && IsDigit(s[1]) {
      LengthBounds(k, s[2..], skipFnc1);
    } else {
      LengthBounds(k, s[1..], skipFnc1);
    }
  }

  /** A run of digits is compacted pair by pair from the left: 2m digits give
      exactly m codewords in [130, 229]; the code unit c of an odd last digit
      gives c + 1 (49..58). */
  lemma AllDigitsEncoding(k: Gs1Constants, s: Text, skipFnc1: bool)
    requires ValidConstants(k) && AllDigits(s)
    ensures |AsciiCodewords(k, s, skipFnc1)| == (|s| + 1) / 2
    ensures forall j :: 0 <= j < |s| / 2 ==>
      AsciiCodewords(k, s, skipFnc1)[j] == (s[2 * j] - Zero) * 10 + (s[2 * j + 1] - Zero) + 130
    ensures |s| % 2 == 1 ==> AsciiCodewords(k, s, skipFnc1)[|s| / 2] == s[|s| - 1] + 1
  {
    AllDigitsLength(k, s, skipFnc1);
    AllDigitsPairs(k, s, skipFnc1);
    if |s| % 2 == 1 {
      AllDigitsOddLast(k, s, skipFnc1);
    }
  }

  lemma {:induction false} AllDigitsLength(k: Gs1Constants, s: Text, skipFnc1: bool)
    requires AllDigits(s)
    ensures |AsciiCodewords(k, s, skipFnc1)| == (|s| + 1) / 2
    decreases |s|
  {
    if |s| >= 2 {
      AllDigitsLength(k, s[2..], skipFnc1);
    }
  }

  lemma {:induction false} AllDigitsPairs(k: Gs1Constants, s: Text, skipFnc1: bool)
    requires AllDigits(s)
    ensures forall j :: 0 <= j < |s| / 2 ==>
      && j < |AsciiCodewords(k, s, skipFnc1)|
      && AsciiCodewords(k, s, skipFnc1)[j] == (s[2 * j] - Zero) * 10 + (s[2 * j + 1] - Zero) + 130
    decreases |s|
  {
    if |s| >= 2 {
      var t := s[2..];
      AllDigitsPairs(k, t, skipFnc1);
      AllDigitsLength(k, t, skipFnc1);
      DigitPairValue(s[0], s[1]);
      var rt := AsciiCodewords(k, t, skipFnc1);
      var r := AsciiCodewords(k, s, skipFnc1);
      assert r == [DigitPair(s[0], s[1])] + rt;
      forall j | 0 <= j < |s| / 2
        ensures j < |r| && r[j] == (s[2 * j] - Zero) * 10 + (s[2 * j + 1] - Zero) + 130
      {
        if j == 0 {
          assert r[0] == DigitPair(s[0], s[1]);
        } else {
          assert j - 1 < |t| / 2;
          assert r[j] == rt[j - 1];
          assert t[2 * (j - 1)] == s[2 * j] && t[2 * (j - 1) + 1] == s[2 * j + 1];
        }
      }
    }
  }

  lemma {:induction false} AllDigitsOddLast(k: Gs1Constants, s: Text, skipFnc1: bool)
    requires ValidConstants(k) && AllDigits(s) && |s| % 2 == 1
    ensures |s| / 2 < |AsciiCodewords(k, s, skipFnc1)|
    ensures AsciiCodewords(k, s, skipFnc1)[|s| / 2] == s[|s| - 1] + 1
    decreases |s|
  {
    if |s| >= 2 {
      var t := s[2..];
      AllDigitsOddLast(k, t, skipFnc1);
      assert AsciiCodewords(k, s, skipFnc1) == [DigitPair(s[0], s[1])] + AsciiCodewords(k, t, skipFnc1);
      assert t[|t| - 1] == s[|s| - 1];
    }
  }

  /** The byte cast never cuts a pair's codeword. */
  lemma DigitPairValue(c1: CodeUnit, c2: CodeUnit)
    requires IsDigit(c1) && IsDigit(c2)
    ensures DigitPair(c1, c2) == (c1 - Zero) * 10 + (c2 - Zero) + 130
  {
  }

  /** "123" encodes as the pair "12" followed by the single digit "3". */
  lemma GreedyPairing(k: Gs1Constants, skipFnc1: bool)
    requires ValidConstants(k)
    ensures AsciiCodewords(k, [49, 50, 51], skipFnc1) == [142, 52]
  {
    AllDigitsEncoding(k, [49, 50, 51], skipFnc1);
  }

  /** Encoding splits at any place where a digit is not followed by a digit. */
  lemma {:induction false} ConcatAtBoundary(k: Gs1Constants, s: Text, t: Text, skipFnc1: bool)
    requires s == [] || t == [] || !IsDigit(s[|s| - 1]) || !IsDigit(t[0])
    ensures AsciiCodewords(k, s + t, skipFnc1) == AsciiCodewords(k, s, skipFnc1) + AsciiCodewords(k, t, skipFnc1)
    decreases |s|
  {
    if s == [] {
      assert s + t == t;
    } else if t == [] {
      assert s + t == s;
    } else {
      var u := s + t;
      var n := if |s| >= 2 && IsDigit(s[0]) && IsDigit(s[1]) then 2 else 1;
      assert u[0] == s[0] && u[1] == (if |s| >= 2 then s[1] else t[0]);
      var head := if n == 2 then [DigitPair(s[0], s[1])] else CharCodewords(k, s[0], skipFnc1);
      assert u[n..] == s[n..] + t;
      assert AsciiCodewords(k, s, skipFnc1) == head + AsciiCodewords(k, s[n..], skipFnc1);
      assert AsciiCodewords(k, u, skipFnc1) == head + AsciiCodewords(k, u[n..], skipFnc1);
      assert s[n..] != [] ==> s[n..][|s[n..]| - 1] == s[|s| - 1];
      ConcatAtBoundary(k, s[n..], t, skipFnc1);
      Concat3(head, AsciiCodewords(k, s[n..], skipFnc1), AsciiCodewords(k, t, skipFnc1));
    }
  }

  /** With `skipFnc1` a literal FNC1 is the single codeword FNC1, even though
      its value exceeds 127; without it FNC1 takes the Upper Shift escape. A
      digit before FNC1 is never paired with it. */
  lemma {:induction false} Fnc1Handling(k: Gs1Constants, d: CodeUnit, t: Text)
    requires ValidConstants(k) && IsDigit(d)
    ensures AsciiCodewords(k, [k.fnc1], true) == [k.fnc1]
    ensures AsciiCodewords(k, [k.fnc1], false) == [k.upperShift, k.fnc1 - 127]
    ensures AsciiCodewords(k, [d, k.fnc1] + t, true) == [d + 1, k.fnc1] + AsciiCodewords(k, t, true)
  {
    ConcatAtBoundary(k, [d], [k.fnc1] + t, true);
    ConcatAtBoundary(k, [k.fnc1], t, true);
    assert [d, k.fnc1] + t == [d] + ([k.fnc1] + t);
  }

  /** A code unit that is not paired with the next one is encoded on its own,
      ahead of the rest: as the single codeword c + 1 in [1, 128] when it is at
      most 127, as Upper Shift and (c - 127) mod 256 when it is above 127,
      unless it is an FNC1 passed through. */
  lemma UnpairedCodeUnit(k: Gs1Constants, c: CodeUnit, t: Text, skipFnc1: bool)
    requires !IsDigit(c) || t == [] || !IsDigit(t[0])
    ensures AsciiCodewords(k, [c] + t, skipFnc1) == CharCodewords(k, c, skipFnc1) + AsciiCodewords(k, t, skipFnc1)
    ensures !(skipFnc1 && c == k.fnc1) && c <= 127 ==>
      CharCodewords(k, c, skipFnc1) == [c + 1] && 1 <= c + 1 <= 128
    ensures !(skipFnc1 && c == k.fnc1) && c > 127 ==>
      CharCodewords(k, c, skipFnc1) == [k.upperShift, (c - 127) % 256]
  {
    assert ([c] + t)[1..] == t;
  }

  /** The Upper Shift escape keeps only `(c - 127) mod 256`, so code units 256
      apart above 127 encode identically. */
  lemma ExtendedWrapsModulo256(k: Gs1Constants, c: CodeUnit, skipFnc1: bool)
    requires 127 < c && c + 256 < 0x1_0000
    requires !(skipFnc1 && c == k.fnc1)
    ensures AsciiCodewords(k, [c], skipFnc1) == AsciiCodewords(k, [c + 256], skipFnc1)
    ensures AsciiCodewords(k, [c], skipFnc1) == [k.upperShift, (c - 127) % 256]
  {
  }

  /** The largest code unit that the Upper Shift escape represents faithfully. */
  const MaxEscapedCodeUnit: CodeUnit := 127 + 255

  /** A reader of ASCII encodation codewords, the inverse of `AsciiCodewords`:
      the pad codeword ends the data. */
  function DecodeAscii(k: Gs1Constants, cws: seq<Byte>, skipFnc1: bool): Text
    decreases |cws|
  {
    if cws == [] then []
    else
      var b := cws[0];
      if 130 <= b <= 229 then
        [Zero + (b - 130) / 10, Zero + (b - 130) % 10] + DecodeAscii(k, cws[1..], skipFnc1)
      else if skipFnc1 && b == k.fnc1 then
        [b] + DecodeAscii(k, cws[1..], skipFnc1)
      else if b == k.upperShift && |cws| >= 2 then
        [cws[1] + 127] + DecodeAscii(k, cws[2..], skipFnc1)
      else if 1 <= b <= 128 then
        [b - 1] + DecodeAscii(k, cws[1..], skipFnc1)
      else if b == PadCodeword then
        []
      else
        DecodeAscii(k, cws[1..], skipFnc1)
  }

  /** Reading back the codeword of a digit pair gives the two digits. */
  lemma DecodePairStep(k: Gs1Constants, c1: CodeUnit, c2: CodeUnit, rest: seq<Byte>, skipFnc1: bool)
    requires IsDigit(c1) && IsDigit(c2)
    ensures DecodeAscii(k, [DigitPair(c1, c2)] + rest, skipFnc1) == [c1, c2] + DecodeAscii(k, rest, skipFnc1)
  {
    assert ([DigitPair(c1, c2)] + rest)[1..] == rest;
  }

  /** Reading back the codewords of one unpaired code unit gives that code unit. */
  lemma DecodeCharStep(k: Gs1Constants, c: CodeUnit, rest: seq<Byte>, skipFnc1: bool)
    requires ValidConstants(k) && c <= MaxEscapedCodeUnit
    ensures DecodeAscii(k, CharCodewords(k, c, skipFnc1) + rest, skipFnc1) == [c] + DecodeAscii(k, rest, skipFnc1)
  {
    if c == k.fnc1 && skipFnc1 {
      DecodeFnc1Step(k, c, rest);
    } else if c > 127 {
      DecodeShiftStep(k, c, rest, skipFnc1);
    } else {
      DecodeSingleStep(k, c, rest, skipFnc1);
    }
  }

  lemma DecodeFnc1Step(k: Gs1Constants, c: CodeUnit, rest: seq<Byte>)
    requires ValidConstants(k) && c == k.fnc1
    ensures DecodeAscii(k, CharCodewords(k, c, true) + rest, true) == [c] + DecodeAscii(k, rest, true)
  {
    var cws := [k.fnc1] + rest;
    assert CharCodewords(k, c, true) == [k.fnc1];
    assert cws[0] == k.fnc1 && cws[1..] == rest;
  }

  lemma DecodeShiftStep(k: Gs1Constants, c: CodeUnit, rest: seq<Byte>, skipFnc1: bool)
    requires ValidConstants(k) && 127 < c <= MaxEscapedCodeUnit && !(c == k.fnc1 && skipFnc1)
    ensures DecodeAscii(k, CharCodewords(k, c, skipFnc1) + rest, skipFnc1) == [c] + DecodeAscii(k, rest, skipFnc1)
  {
    var cws := [k.upperShift, c - 127] + rest;
    assert CharCodewords(k, c, skipFnc1) == [k.upperShift, c - 127];
    assert cws[0] == k.upperShift && cws[1] == c - 127 && cws[2..] == rest;
  }

  lemma DecodeSingleStep(k: Gs1Constants, c: CodeUnit, rest: seq<Byte>, skipFnc1: bool)
    requires ValidConstants(k) && c <= 127 && !(c == k.fnc1 && skipFnc1)
    ensures DecodeAscii(k, CharCodewords(k, c, skipFnc1) + rest, skipFnc1) == [c] + DecodeAscii(k, rest, skipFnc1)
  {
    var cws := [c + 1] + rest;
    assert CharCodewords(k, c, skipFnc1) == [c + 1];
    assert cws[0] == c + 1 && cws[1..] == rest;
  }

  /** Round trip: every text whose code units the escape can hold is read
      back from its codewords, whatever follows them. */
  lemma {:induction false} DecodeEncode(k: Gs1Constants, s: Text, rest: seq<Byte>, skipFnc1: bool)
    requires ValidConstants(k)
    requires forall i :: 0 <= i < |s| ==> s[i] <= MaxEscapedCodeUnit
    ensures DecodeAscii(k, AsciiCodewords(k, s, skipFnc1) + rest, skipFnc1) == s + DecodeAscii(k, rest, skipFnc1)
    decreases |s|
  {
    if s == [] {
      assert AsciiCodewords(k, s, skipFnc1) + rest == rest;
    } else {
      var n := if |s| >= 2 && IsDigit(s[0]) && IsDigit(s[1]) then 2 else 1;
      var head := if n == 2 then [DigitPair(s[0], s[1])] else CharCodewords(k, s[0], skipFnc1);
      var tail := AsciiCodewords(k, s[n..], skipFnc1);
      assert AsciiCodewords(k, s, skipFnc1) == head + tail;
      Concat3(head, tail, rest);
      if n == 2 {
        DecodePairStep(k, s[0], s[1], tail + rest, skipFnc1);
      } else {
        DecodeCharStep(k, s[0], tail + rest, skipFnc1);
      }
      assert DecodeAscii(k, head + (tail + rest), skipFnc1) == s[..n] + DecodeAscii(k, tail + rest, skipFnc1);
      DecodeEncode(k, s[n..], rest, skipFnc1);
      Concat3(s[..n], s[n..], DecodeAscii(k, rest, skipFnc1));
      assert s == s[..n] + s[n..];
    }
  }
}
