/** Shared vocabulary of the Data Matrix data-codeword stage: bytes, UTF-16 code
    units, failure-compatible results, the special codewords and the capacity
    table entries. */
module Types {

  /** A C# `byte`. */
  type Byte = x: int | 0 <= x < 0x100

  /** A C# `char`: one UTF-16 code unit. */
  type CodeUnit = x: int | 0 <= x < 0x1_0000

  /** A C# `string`: a sequence of UTF-16 code units. */
  type Text = seq<CodeUnit>

  const Space: CodeUnit := 32
  const OpenParen: CodeUnit := 40
  const CloseParen: CodeUnit := 41
  const Zero: CodeUnit := 48
  const Nine: CodeUnit := 57

  /** The pad codeword of ASCII encodation. */
  const PadCodeword: Byte := 129

  predicate IsDigit(c: CodeUnit) {
    Zero <= c <= Nine
  }

  predicate AllDigits(s: Text) {
    forall i :: 0 <= i < |s| ==> IsDigit(s[i])
  }

  datatype Option<T> = None | Some(value: T)

  /** The conditions under which the encoder throws `InvalidOperationException`. */
  datatype Error =
    | NoSizeWithRows(rows: int)           // no table entry has the requested row count
    | FixedSizeTooSmall(rows: int, length: int)  // that entry holds fewer data codewords
    | NoSizeFits(length: int)             // no table entry holds that many data codewords

  datatype Result<T> = Ok(value: T) | Err(error: Error) {
    predicate IsFailure() { Err? }

    function PropagateFailure<U>(): Result<U>
      requires Err?
    {
      Err(error)
    }

    function Extract(): T
      requires Ok?
    {
      value
    }
  }

  /** The special codewords and the table of predefined application identifier
      lengths that the encoder reads from its GS1 constants. Their values are
      not part of this model; `aiLengths` maps an application identifier to the
      predefined total length of identifier plus data. */
  datatype Gs1Constants = Gs1Constants(fnc1: Byte, upperShift: Byte, aiLengths: map<Text, int>)

  /** FNC1 and Upper Shift lie above every codeword that ASCII encodation uses
      for data (1..229) and differ from each other; ISO/IEC 16022 assigns them
      232 and 235. */
  predicate ValidConstants(k: Gs1Constants) {
    k.fnc1 >= 230 && k.upperShift >= 230 && k.fnc1 != k.upperShift
  }

  /** One entry of the capacity table. */
  datatype CodeSize = CodeSize(rows: int, columns: int, dataCodewords: int, errorCorrectionCodewords: int, blockCount: int)

  /** Concatenation regroups freely; the solver needs this stated outright
      when the sequences are large terms. */
  lemma Concat3<T>(a: seq<T>, b: seq<T>, c: seq<T>)
    ensures (a + b) + c == a + (b + c)
  {
  }

  /** The number of occurrences of `v` in `s`. */
  function Count(s: seq<int>, v: int): nat
    decreases |s|
  {
    if s == [] then 0 else (if s[0] == v then 1 else 0) + Count(s[1..], v)
  }

  lemma {:induction false} CountConcat(a: seq<int>, b: seq<int>, v: int)
    ensures Count(a + b, v) == Count(a, v) + Count(b, v)
    decreases |a|
  {
    if a == [] {
      assert a + b == b;
    } else {
      assert (a + b)[1..] == a[1..] + b;
      CountConcat(a[1..], b, v);
    }
  }
}
