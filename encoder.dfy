/** The data-codeword stage of `DataMatrixEncoder.Encode`: encode the content
    (GS1 or plain text), choose the symbol size (fixed row count or smallest
    fit) and pad the codewords to the capacity of that size. Error correction
    and module placement follow in the source and are not part of this model. */
module DataMatrixEncoder {
  import opened Types
  import opened Ascii
  import opened Gs1
  import opened Padding
  import opened SizeSelection

  /** The chosen size with the padded data codewords for it. */
  datatype DataCodewords = DataCodewords(size: CodeSize, codewords: seq<Byte>)

  /** The codewords for the content before padding. */
  function ContentCodewords(k: Gs1Constants, content: Text, gs1Mode: bool): seq<Byte> {
    if gs1Mode then Gs1Codewords(k, content) else AsciiCodewords(k, content, false)
  }

  function SelectSize(sizes: seq<CodeSize>, fixedRows: Option<int>, dataLength: int): Result<CodeSize> {
    match fixedRows
    case Some(rows) => FixedCodeSize(sizes, rows, dataLength)
    case None => SmallestCodeSize(sizes, dataLength)
  }

  /** What `Encode` computes up to the error-correction step. */
  function DataStage(k: Gs1Constants, sizes: seq<CodeSize>, content: Text, fixedRows: Option<int>, gs1Mode: bool)
    : Result<DataCodewords>
  {
    var data := ContentCodewords(k, content, gs1Mode);
    var size :- SelectSize(sizes, fixedRows, |data|);
    Ok(DataCodewords(size, Padded(data, size.dataCodewords)))
  }

  method Encode(k: Gs1Constants, sizes: seq<CodeSize>, content: Text, fixedRows: Option<int>, gs1Mode: bool)
    returns (r: Result<DataCodewords>)
    ensures r == DataStage(k, sizes, content, fixedRows, gs1Mode)
  {
    var data;
    if gs1Mode {
      data := EncodeGs1(k, content);
    } else {
      data := EncodeText(k, content, false);
    }
    var size: CodeSize;
    match fixedRows {
      case Some(rows) =>
        size :- FixedCodeSize(sizes, rows, |data|);
      case None =>
        size :- SmallestCodeSize(sizes, |data|);
    }
    data := AddPadding(data, size.dataCodewords);
    r := Ok(DataCodewords(size, data));
  }

  /** On success the size comes from the table, holds the content codewords,
      and the padded stream starts with them and fills the size exactly. */
  lemma DataStageFillsCapacity(k: Gs1Constants, sizes: seq<CodeSize>, content: Text, fixedRows: Option<int>, gs1Mode: bool)
    requires DataStage(k, sizes, content, fixedRows, gs1Mode).Ok?
    ensures var r := DataStage(k, sizes, content, fixedRows, gs1Mode).value;
      var data := ContentCodewords(k, content, gs1Mode);
      && r.size in sizes
      && |data| <= r.size.dataCodewords
      && |r.codewords| == r.size.dataCodewords
      && r.codewords[..|data|] == data
      && (fixedRows.Some? ==> r.size.rows == fixedRows.value)
  {
    var data := ContentCodewords(k, content, gs1Mode);
    var size := SelectSize(sizes, fixedRows, |data|).value;
    PaddedLayout(data, size.dataCodewords);
  }

  /** The stage fails exactly when size selection does, with its error. */
  lemma DataStageErrors(k: Gs1Constants, sizes: seq<CodeSize>, content: Text, fixedRows: Option<int>, gs1Mode: bool)
    ensures var n := |ContentCodewords(k, content, gs1Mode)|;
      var r := DataStage(k, sizes, content, fixedRows, gs1Mode);
      && (fixedRows.None? ==>
           (r == Err(NoSizeFits(n)) <==> forall i :: 0 <= i < |sizes| ==> sizes[i].dataCodewords < n))
      && (fixedRows.Some? ==>
           (r == Err(NoSizeWithRows(fixedRows.value)) <==> forall i :: 0 <= i < |sizes| ==> sizes[i].rows != fixedRows.value))
      && (fixedRows.Some? ==>
           (r == Err(FixedSizeTooSmall(fixedRows.value, n)) <==>
             exists i :: FirstWithRows(sizes, fixedRows.value, i) && sizes[i].dataCodewords < n))
  {
    var n := |ContentCodewords(k, content, gs1Mode)|;
    if fixedRows.Some? {
      var rows := fixedRows.value;
      var r := FixedCodeSize(sizes, rows, n);
      if exists i :: FirstWithRows(sizes, rows, i) && sizes[i].dataCodewords < n {
        var i :| FirstWithRows(sizes, rows, i) && sizes[i].dataCodewords < n;
        FixedHasNoFallback(sizes, n, i);
      }
    }
  }

  /** Empty content fits the first table entry, which is then filled with the
      pad codeword followed by fillers. */
  lemma EmptyContentSmallestSymbol(k: Gs1Constants, sizes: seq<CodeSize>)
    requires |sizes| > 0 && sizes[0].dataCodewords > 0
    ensures DataStage(k, sizes, [], None, false) == Ok(DataCodewords(sizes[0], Padded([], sizes[0].dataCodewords)))
    ensures Padded([], sizes[0].dataCodewords)[0] == PadCodeword
  {
    assert ContentCodewords(k, [], false) == [];
    ExactCapacitySelectsEntry(sizes, 0);
    assert SmallestCodeSize(sizes, 0) == Ok(sizes[0]) by {
      var r := SmallestCodeSize(sizes, 0);
      var m :| FirstFitting(sizes, 0, m) && sizes[m] == r.value;
      assert !(0 < m);
    }
    PaddedLayout([], sizes[0].dataCodewords);
  }

  /** A reader that stops at the pad codeword recovers the content from the
      padded data codewords of plain text mode, and the assembled element
      string from those of GS1 mode. */
  lemma DataStageRoundTrip(k: Gs1Constants, sizes: seq<CodeSize>, content: Text, fixedRows: Option<int>, gs1Mode: bool)
    requires ValidConstants(k)
    requires DataStage(k, sizes, content, fixedRows, gs1Mode).Ok?
    requires !gs1Mode ==> forall i :: 0 <= i < |content| ==> content[i] <= MaxEscapedCodeUnit
    ensures var r := DataStage(k, sizes, content, fixedRows, gs1Mode).value;
      DecodeAscii(k, r.codewords, gs1Mode) == if gs1Mode then Gs1Text(k, content) else content
  {
    var data := ContentCodewords(k, content, gs1Mode);
    var size := SelectSize(sizes, fixedRows, |data|).value;
    assert DataStage(k, sizes, content, fixedRows, gs1Mode).value.codewords == Padded(data, size.dataCodewords);
    if gs1Mode {
      Gs1TextEscapable(k, content);
      PaddedRoundTrip(k, Gs1Text(k, content), true, size.dataCodewords);
    } else {
      PaddedRoundTrip(k, content, false, size.dataCodewords);
    }
  }

  /** Padding does not disturb reading back: the pad codeword ends the data. */
  lemma PaddedRoundTrip(k: Gs1Constants, text: Text, skipFnc1: bool, toCount: int)
    requires ValidConstants(k)
    requires forall i :: 0 <= i < |text| ==> text[i] <= MaxEscapedCodeUnit
    ensures DecodeAscii(k, Padded(AsciiCodewords(k, text, skipFnc1), toCount), skipFnc1) == text
  {
    var data := AsciiCodewords(k, text, skipFnc1);
    var rest: seq<Byte> := if |data| >= toCount then [] else Padded(data, toCount)[|data|..];
    PaddedSplit(data, toCount);
    DecodeEncode(k, text, rest, skipFnc1);
    assert text + [] == text;
  }

  /** The padded stream is the data followed by nothing or by a tail that
      starts with the pad codeword. */
  lemma PaddedSplit(data: seq<Byte>, toCount: int)
    ensures |data| >= toCount ==> Padded(data, toCount) == data + []
    ensures |data| < toCount ==>
      Padded(data, toCount) == data + Padded(data, toCount)[|data|..]
      && Padded(data, toCount)[|data|..][0] == PadCodeword
  {
    if |data| >= toCount {
      assert data + [] == data;
    } else {
      var fillers := seq<Byte>(toCount - |data| - 1, j requires 0 <= j => Filler(|data| + 1 + j));
      Concat3(data, [PadCodeword], fillers);
      assert Padded(data, toCount)[|data|..] == [PadCodeword] + fillers;
    }
  }

  /** The element string holds only code units the escape represents. */
  lemma Gs1TextEscapable(k: Gs1Constants, content: Text)
    ensures forall i :: 0 <= i < |Gs1Text(k, content)| ==> Gs1Text(k, content)[i] <= MaxEscapedCodeUnit
  {
    Gs1TextAlphabet(k, content);
  }
}
