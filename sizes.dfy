/** Choice of the symbol size, as done by `GetSmallestCodeSizeForData` and
    `GetFixedCodeSizeForData`: a `FirstOrDefault` over the capacity table
    followed by the error checks. The table itself is a parameter. */
module SizeSelection {
  import opened Types

  /** `FirstOrDefault`: the index of the first element satisfying `p`. */
  function FirstIndex<T>(s: seq<T>, p: T -> bool): (r: Option<nat>)
    ensures r.Some? ==> r.value < |s| && p(s[r.value]) && forall j :: 0 <= j < r.value ==> !p(s[j])
    ensures r.None? ==> forall j :: 0 <= j < |s| ==> !p(s[j])
    decreases |s|
  {
    if s == [] then None
    else if p(s[0]) then Some(0)
    else match FirstIndex(s[1..], p)
      case None => None
      case Some(i) => Some(i + 1)
  }

  /** Entry `i` is the first one that holds `dataLength` data codewords. */
  predicate FirstFitting(sizes: seq<CodeSize>, dataLength: int, i: int) {
    0 <= i < |sizes| && sizes[i].dataCodewords >= dataLength
    && forall j :: 0 <= j < i ==> sizes[j].dataCodewords < dataLength
  }

  /** Entry `i` is the first one with `rows` rows. */
  predicate FirstWithRows(sizes: seq<CodeSize>, rows: int, i: int) {
    0 <= i < |sizes| && sizes[i].rows == rows
    && forall j :: 0 <= j < i ==> sizes[j].rows != rows
  }

  /** Automatic selection: the first entry that holds `dataLength` data
      codewords, or `NoSizeFits` when no entry does. */
  function SmallestCodeSize(sizes: seq<CodeSize>, dataLength: int): (r: Result<CodeSize>)
    ensures r.Err? <==> forall i :: 0 <= i < |sizes| ==> sizes[i].dataCodewords < dataLength
    ensures r.Err? ==> r.error == NoSizeFits(dataLength)
    ensures r.Ok? ==> exists i :: FirstFitting(sizes, dataLength, i) && sizes[i] == r.value
  {
    match FirstIndex(sizes, (s: CodeSize) => s.dataCodewords >= dataLength)
    case Some(i) => Ok(sizes[i])
    case None => Err(NoSizeFits(dataLength))
  }

  /** Fixed selection: only the first entry with `rows` rows is considered; it
      fails with `NoSizeWithRows` when there is none and with
      `FixedSizeTooSmall` when that entry holds fewer than `dataLength` data
      codewords, even if a later entry with as many rows would hold them. */
  function FixedCodeSize(sizes: seq<CodeSize>, rows: int, dataLength: int): (r: Result<CodeSize>)
    ensures r.Err? ==> r.error == NoSizeWithRows(rows) || r.error == FixedSizeTooSmall(rows, dataLength)
    ensures r == Err(NoSizeWithRows(rows)) <==> forall i :: 0 <= i < |sizes| ==> sizes[i].rows != rows
    ensures r == Err(FixedSizeTooSmall(rows, dataLength)) ==>
      exists i :: FirstWithRows(sizes, rows, i) && sizes[i].dataCodewords < dataLength
    ensures r.Ok? ==>
      exists i :: FirstWithRows(sizes, rows, i) && sizes[i].dataCodewords >= dataLength && r.value == sizes[i]
  {
    match FirstIndex(sizes, (s: CodeSize) => s.rows == rows)
    case None => Err(NoSizeWithRows(rows))
    case Some(i) =>
      if sizes[i].dataCodewords < dataLength then Err(FixedSizeTooSmall(rows, dataLength))
      else Ok(sizes[i])
  }

  predicate SortedByCapacity(sizes: seq<CodeSize>) {
    forall i, j :: 0 <= i < j < |sizes| ==> sizes[i].dataCodewords <= sizes[j].dataCodewords
  }

  /** On a table sorted by capacity, automatic selection gives the smallest
      capacity that fits. */
  lemma SmallestIsMinimal(sizes: seq<CodeSize>, dataLength: int, i: nat)
    requires SortedByCapacity(sizes)
    requires i < |sizes| && sizes[i].dataCodewords >= dataLength
    ensures SmallestCodeSize(sizes, dataLength).Ok?
    ensures SmallestCodeSize(sizes, dataLength).value.dataCodewords <= sizes[i].dataCodewords
  {
    var r := SmallestCodeSize(sizes, dataLength);
    var m :| FirstFitting(sizes, dataLength, m) && sizes[m] == r.value;
    assert !(i < m);
  }

  /** A length exactly equal to the capacity of an entry selects that entry
      when every earlier entry is smaller (not the next larger one). */
  lemma ExactCapacitySelectsEntry(sizes: seq<CodeSize>, i: nat)
    requires i < |sizes|
    requires forall j :: 0 <= j < i ==> sizes[j].dataCodewords < sizes[i].dataCodewords
    ensures SmallestCodeSize(sizes, sizes[i].dataCodewords) == Ok(sizes[i])
  {
    var r := SmallestCodeSize(sizes, sizes[i].dataCodewords);
    var m :| FirstFitting(sizes, sizes[i].dataCodewords, m) && sizes[m] == r.value;
    assert !(i < m);
  }

  /** When the first entry with the requested row count is too small, fixed
      selection fails, whatever later entries with that row count hold. */
  lemma FixedHasNoFallback(sizes: seq<CodeSize>, dataLength: int, i: nat)
    requires i < |sizes| && FirstWithRows(sizes, sizes[i].rows, i)
    requires sizes[i].dataCodewords < dataLength
    ensures FixedCodeSize(sizes, sizes[i].rows, dataLength) == Err(FixedSizeTooSmall(sizes[i].rows, dataLength))
  {
  }
}
