/** Padding of the data codewords up to the capacity of the chosen symbol, as
    done by `DataMatrixEncoder.AddPadding`: the pad codeword 129 once, then the
    253-state randomised fillers, each a function of its own position. */
module Padding {
  import opened Types

  /** The filler at 0-based index `index`, that is at 1-based position
      `index + 1` of the whole codeword stream. */
  function Filler(index: nat): (b: Byte)
    ensures b <= 253 && b != PadCodeword
  {
    var r := ((149 * (index + 1)) % 253) + 1;
    ((129 + r) % 254) % 256
  }

  /** The filler reduces pad plus pseudo-random number by 254 whenever the sum
      reaches 254; at position 28, for one, the sum is exactly 254 and the
      filler is 0. */
  lemma FillerReduction(index: nat)
    ensures var sum := 129 + ((149 * (index + 1)) % 253) + 1;
      130 <= sum <= 382 && Filler(index) == (if sum < 254 then sum else sum - 254)
    ensures Filler(27) == 0 && 129 + ((149 * 28) % 253) + 1 == 254
  {
    var m := (149 * (index + 1)) % 253;
    assert 0 <= m < 253;
    var sum := 129 + m + 1;
    if sum < 254 {
      assert sum % 254 == sum;
    } else {
      assert sum % 254 == sum - 254;
    }
    assert 149 * 28 == 4172 && 4172 % 253 == 124;
  }

  /** `data` padded to `toCount` codewords; longer data is left as it is. */
  function Padded(data: seq<Byte>, toCount: int): seq<Byte> {
    if |data| >= toCount then data
    else
      var fillers := seq<Byte>(toCount - |data| - 1, j requires 0 <= j => Filler(|data| + 1 + j));
      data + [PadCodeword] + fillers
  }

  method AddPadding(data: seq<Byte>, toCount: int) returns (result: seq<Byte>)
    ensures result == Padded(data, toCount)
  {
    result := data;
    if |result| < toCount {
      result := result + [PadCodeword];
    }
    while |result| < toCount
      invariant |data| < toCount ==> |data| < |result| <= toCount && result == Padded(data, |result|)
      invariant |data| >= toCount ==> result == data
      decreases toCount - |result|
    {
      PaddedStep(data, |result|);
      var r := ((149 * (|result| + 1)) % 253) + 1;
      result := result + [((129 + r) % 254) % 256];
    }
  }

  /** Padding one codeword further appends the filler of that position. */
  lemma PaddedStep(data: seq<Byte>, n: int)
    requires |data| < n
    ensures Padded(data, n + 1) == Padded(data, n) + [Filler(n)]
  {
  }

  /** Data at least `toCount` long is never truncated; shorter data keeps its
      place, is followed by the pad codeword and then by the filler of each
      position, whatever the data is, up to exactly `toCount` codewords. */
  lemma PaddedLayout(data: seq<Byte>, toCount: int)
    ensures |data| >= toCount ==> Padded(data, toCount) == data
    ensures |data| < toCount ==>
      && |Padded(data, toCount)| == toCount
      && Padded(data, toCount)[..|data|] == data
      && Padded(data, toCount)[|data|] == PadCodeword
      && forall i :: |data| < i < toCount ==> Padded(data, toCount)[i] == Filler(i)
  {
  }

  /** The padding depends on the length of the data, not on its contents. */
  lemma PaddingIndependentOfData(d1: seq<Byte>, d2: seq<Byte>, toCount: int)
    requires |d1| == |d2|
    ensures Padded(d1, toCount)[|d1|..] == Padded(d2, toCount)[|d2|..]
  {
    PaddedLayout(d1, toCount);
    PaddedLayout(d2, toCount);
  }

  /** Padding an already padded stream to the same count changes nothing. */
  lemma PaddedIdempotent(data: seq<Byte>, toCount: int)
    ensures Padded(Padded(data, toCount), toCount) == Padded(data, toCount)
  {
    PaddedLayout(data, toCount);
  }

  /** Padding to a larger count extends padding to a smaller one. */
  lemma PaddedPrefix(data: seq<Byte>, n: int, m: int)
    requires |data| < n <= m
    ensures Padded(data, m)[..n] == Padded(data, n)
  {
    PaddedLayout(data, n);
    PaddedLayout(data, m);
  }
}
