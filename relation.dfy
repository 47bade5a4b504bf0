/** The methods the pager mixes into the relation it builds: `total_size`, the number of rows
    its filters admit, and `left_over?`, whether the loaded page leaves rows behind. Both are
    memoised in the relation object with `||=`. */
module ActiveRecordRelationMethods {
  import opened Wrappers
  import opened Store

  /** `size.positive? && size < total_size`. */
  predicate LeftOver(size: nat, totalSize: nat)
  {
    0 < size < totalSize
  }

  class Relation {
    /** The rows the relation loads: its filters, order and limit applied. */
    const records: seq<Row>
    /** The rows its filters admit, with offset, limit and order removed. */
    const scope: seq<Row>
    /** `@total_size`: nil until first counted. */
    var totalSize: Option<nat>
    /** `@left_over`: nil, or the last value computed. */
    var leftOver: Option<bool>

    ghost predicate Valid()
      reads this
    {
      (totalSize.Some? ==> totalSize.value == |scope|) &&
      (leftOver.Some? ==> leftOver.value == LeftOver(|records|, |scope|))
    }

    constructor (records: seq<Row>, scope: seq<Row>)
      ensures Valid()
      ensures this.records == records && this.scope == scope
      ensures totalSize == None && leftOver == None
    {
      this.records := records;
      this.scope := scope;
      totalSize := None;
      leftOver := None;
    }

    /** `total_size`: counts the scope once, then answers from the memo. */
    method TotalSize() returns (n: nat)
      requires Valid()
      modifies this`totalSize
      ensures Valid()
      ensures n == |scope|
      ensures totalSize == Some(n)
    {
      if totalSize.None? {
        totalSize := Some(|scope|);
      }
      n := totalSize.value;
    }

    /** `left_over?`: a true answer is kept; a false one is recomputed on the next call. The count
        is only taken for a non-empty page. */
    method IsLeftOver() returns (b: bool)
      requires Valid()
      modifies this`totalSize, this`leftOver
      ensures Valid()
      ensures b == LeftOver(|records|, |scope|)
      ensures leftOver == Some(b)
      ensures totalSize == if old(leftOver) == Some(true) || |records| == 0 then old(totalSize)
                           else Some(|scope|)
    {
      if leftOver != Some(true) {
        var value := false;
        if |records| > 0 {
          var total := TotalSize();
          value := |records| < total;
        }
        leftOver := Some(value);
      }
      b := leftOver.value;
    }
  }
}
