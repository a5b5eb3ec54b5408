/** The C wrapper that reads a range of a list into slots the caller allocated
    (`_get_dataset_list_range_allocated`). */
module CRange {
  import opened Basics
  import opened Store

  /** `(size_t)(end_index - start_index + 1)`. */
  function Requested(start: int, end: int): nat {
    (end - start + 1) % SIZE_LIMIT
  }

  /** The size check and the fill loop, on the datasets that the range read returned. The caller
      has allocated a slot for every index it asks for. */
  method FillSlots<T>(range: seq<T>, start: int, end: int, slots: array<T>) returns (outcome: Result<()>)
    requires |range| == Requested(start, end) ==> |range| <= slots.Length
    modifies slots
    ensures outcome == if |range| == Requested(start, end) then Ok(()) else Err(InternalError)
    ensures slots[..] == if outcome.Ok? then range + old(slots[..])[|range|..] else old(slots[..])
  {
    var numDatasets := |range|;
    if numDatasets != Requested(start, end) {
      return Err(InternalError);
    }
    ghost var before := slots[..];
    if numDatasets > 0 {
      var i := 0;
      while i < numDatasets
        invariant i <= numDatasets <= slots.Length
        invariant slots[..i] == range[..i] && slots[i..] == before[i..]
      {
        slots[i] := range[i];
        i := i + 1;
      }
    }
    assert slots[..] == slots[..numDatasets] + slots[numDatasets..];
    assert range[..numDatasets] == range;
    return Ok(());
  }

  predicate IsInt32(n: int) {
    -0x8000_0000 <= n < 0x8000_0000
  }

  /** Which ranges of a list the wrapper delivers. For `start <= end` they are those whose ends
      both name entries, counted from the same end of the list. For `end == start - 1` it needs
      an empty range, so that the whole list, 0 to -1, is refused unless it is empty; for a
      smaller `end` the requested size wraps around and nothing is delivered. */
  lemma {:induction false} DeliveredIff<T>(xs: seq<T>, start: int, end: int)
    requires |xs| < 0x8000_0000 && IsInt32(start) && IsInt32(end) && IsInt32(end - start + 1)
    ensures start <= end ==>
              (|Slice(xs, start, end)| == Requested(start, end) <==>
               (0 <= start && end < |xs|) || (-|xs| <= start && end < 0))
    ensures start == end + 1 ==> (|Slice(xs, start, end)| == Requested(start, end) <==> Slice(xs, start, end) == [])
    ensures start > end + 1 ==> |Slice(xs, start, end)| != Requested(start, end)
  {
    if start > end + 1 {
      assert Requested(start, end) == end - start + 1 + SIZE_LIMIT;
    }
  }
}
