/** Cutting a model into segments for the server, and putting the segments of a reply together
    again (`set_model`, `get_model`). */
module ModelChunks {
  import opened Basics

  /** `n / c`, rounded up. */
  function Ceiling(n: nat, c: nat): nat
    requires c > 0
  {
    (n + c - 1) / c
  }

  /** The quotient is the only `q` with `q * c <= m < (q + 1) * c`. */
  lemma QuotientIs(m: nat, c: nat, q: nat)
    requires c > 0 && q * c <= m < q * c + c
    ensures m / c == q
  {
    var p, r := m / c, m % c;
    assert m == p * c + r && 0 <= r < c;
    if p < q {
      assert (p + 1) * c <= q * c by { ProductGrows(p + 1, q, c); }
    } else if q < p {
      assert (q + 1) * c <= p * c by { ProductGrows(q + 1, p, c); }
    }
  }

  lemma ProductGrows(a: nat, b: nat, c: nat)
    requires a <= b
    ensures a * c <= b * c
  {}

  lemma CeilingNext(n: nat, c: nat)
    requires c > 0
    ensures Ceiling(n + c, c) == Ceiling(n, c) + 1
  {
    var m := n + c - 1;
    var q, r := m / c, m % c;
    assert m == q * c + r && 0 <= r < c;
    assert (q + 1) * c == q * c + c;
    QuotientIs(m + c, c, q + 1);
  }

  lemma CeilingSmall(n: nat, c: nat)
    requires c > 0 && n <= c
    ensures Ceiling(n, c) == if n == 0 then 0 else 1
  {
    QuotientIs(n + c - 1, c, if n == 0 then 0 else 1);
  }

  /** All segments are full but the last, which is not empty. */
  ghost predicate Chunked(segments: seq<Bytes>, chunkSize: nat) {
    && (forall i :: 0 <= i < |segments| - 1 ==> |segments[i]| == chunkSize)
    && (segments != [] ==> 0 < |segments[|segments| - 1]| <= chunkSize)
  }

  /** The splitting loop of `set_model`. */
  method SplitModel(model: Bytes, chunkSize: nat) returns (segments: seq<Bytes>)
    requires chunkSize > 0
    ensures Concat(segments) == model
    ensures Chunked(segments, chunkSize)
    ensures |segments| == Ceiling(|model|, chunkSize)
  {
    var offset := 0;
    segments := [];
    var remaining: nat := |model|;
    ghost var done: nat := 0;
    CeilingSmall(0, chunkSize);
    while offset < |model|
      invariant done + remaining == |model|
      invariant Concat(segments) == model[..done]
      invariant if remaining > 0 then offset == done else offset >= |model|
      invariant forall i :: 0 <= i < |segments| - 1 ==> |segments[i]| == chunkSize
      invariant segments != [] ==> 0 < |segments[|segments| - 1]| <= chunkSize
      invariant remaining > 0 && segments != [] ==> |segments[|segments| - 1]| == chunkSize
      invariant |segments| + Ceiling(remaining, chunkSize) == Ceiling(|model|, chunkSize)
      decreases |model| - offset
    {
      var thisChunkSize := if remaining > chunkSize then chunkSize else remaining;
      var chunk := model[offset..offset + thisChunkSize];
      ghost var before := segments;
      segments := segments + [chunk];
      assert segments[..|segments| - 1] == before;
      assert model[..done] + chunk == model[..done + thisChunkSize];
      if remaining > chunkSize {
        CeilingNext(remaining - chunkSize, chunkSize);
      } else {
        CeilingSmall(remaining, chunkSize);
      }
      remaining := remaining - thisChunkSize;
      done := done + thisChunkSize;
      offset := offset + chunkSize;
    }
    assert model[..done] == model;
  }

  // ---------------------------------------------------------------------------------------
  // Reassembly
  // ---------------------------------------------------------------------------------------

  lemma {:induction false} SegmentFits(segments: seq<Bytes>, i: nat)
    requires i < |segments|
    ensures |segments[i]| <= |Concat(segments)|
    decreases |segments|
  {
    if i < |segments| - 1 {
      SegmentFits(segments[..|segments| - 1], i);
    }
  }

  lemma ConcatNext(segments: seq<Bytes>, i: nat)
    requires i < |segments|
    ensures Concat(segments[..i + 1]) == Concat(segments[..i]) + segments[i]
    ensures |Concat(segments[..i + 1])| <= |Concat(segments)|
  {
    assert segments[..i + 1][..i] == segments[..i];
    assert segments == segments[..i + 1] + segments[i + 1..];
    ConcatAppend(segments[..i + 1], segments[i + 1..]);
  }

  /** What the memory holds once every segment has been copied to its start. */
  function Overlay(memory: Bytes, segments: seq<Bytes>): (r: Bytes)
    requires forall i :: 0 <= i < |segments| ==> |segments[i]| <= |memory|
    ensures |r| == |memory|
  {
    if segments == [] then memory
    else
      var last := segments[|segments| - 1];
      last + Overlay(memory, segments[..|segments| - 1])[|last|..]
  }

  /** The total length that `get_model` adds up before it allocates. */
  method TotalLength(segments: seq<Bytes>) returns (n: nat)
    ensures n == |Concat(segments)|
  {
    n := 0;
    for i := 0 to |segments|
      invariant n == |Concat(segments[..i])|
    {
      ConcatNext(segments, i);
      n := n + |segments[i]|;
    }
    assert segments[..|segments|] == segments;
  }

  /** The loop of `get_model` as it is written: `offset` stays 0. The allocated memory is not
      initialized; `memory` is what it happens to hold. */
  method ReassembleAsWritten(segments: seq<Bytes>, memory: Bytes) returns (model: Bytes)
    requires |memory| == |Concat(segments)|
    ensures forall i :: 0 <= i < |segments| ==> |segments[i]| <= |memory|
    ensures model == Overlay(memory, segments)
  {
    var modelLength := TotalLength(segments);
    forall i | 0 <= i < |segments| ensures |segments[i]| <= modelLength {
      SegmentFits(segments, i);
    }
    var mem := new byte[modelLength](i requires 0 <= i < |memory| => memory[i]);
    assert mem[..] == memory;
    var offset := 0;
    for i := 0 to |segments|
      invariant offset == 0
      invariant mem[..] == Overlay(memory, segments[..i])
    {
      ghost var before := mem[..];
      forall k | 0 <= k < |segments[i]| {
        mem[offset + k] := segments[i][k];
      }
      assert mem[..] == segments[i] + before[|segments[i]|..];
      assert segments[..i + 1][..i] == segments[..i];
    }
    assert segments[..|segments|] == segments;
    model := mem[..];
  }

  /** The loop as its comment describes it, with an offset that advances. */
  method ReassembleAdvancing(segments: seq<Bytes>) returns (model: Bytes)
    ensures model == Concat(segments)
  {
    var modelLength := TotalLength(segments);
    var mem := new byte[modelLength];
    var offset := 0;
    for i := 0 to |segments|
      invariant offset == |Concat(segments[..i])| <= mem.Length
      invariant mem[..offset] == Concat(segments[..i])
    {
      ConcatNext(segments, i);
      forall k | 0 <= k < |segments[i]| {
        mem[offset + k] := segments[i][k];
      }
      assert mem[..offset + |segments[i]|] == mem[..offset] + segments[i];
      offset := offset + |segments[i]|;
    }
    assert segments[..|segments|] == segments;
    model := mem[..];
  }

  ghost predicate AtMostOneNonEmpty(segments: seq<Bytes>) {
    forall i, j :: 0 <= i < j < |segments| ==> segments[i] == [] || segments[j] == []
  }

  lemma {:induction false} AllEmpty(segments: seq<Bytes>)
    requires forall i :: 0 <= i < |segments| ==> segments[i] == []
    ensures Concat(segments) == []
    decreases |segments|
  {
    if segments != [] { AllEmpty(segments[..|segments| - 1]); }
  }

  lemma {:induction false} OverlayOfOne(memory: Bytes, segments: seq<Bytes>)
    requires AtMostOneNonEmpty(segments) && |Concat(segments)| <= |memory|
    requires forall i :: 0 <= i < |segments| ==> |segments[i]| <= |memory|
    ensures Overlay(memory, segments) == Concat(segments) + memory[|Concat(segments)|..]
    decreases |segments|
  {
    if segments != [] {
      var n := |segments| - 1;
      var init, last := segments[..n], segments[n];
      FrontOfOne(segments);
      OverlayOfOne(memory, init);
      if last == [] {
        assert last + Overlay(memory, init)[0..] == Overlay(memory, init);
        assert Concat(segments) == Concat(init);
      } else {
        assert Overlay(memory, init) == memory;
        assert Concat(segments) == last;
      }
    }
  }

  lemma FrontOfOne(segments: seq<Bytes>)
    requires AtMostOneNonEmpty(segments) && segments != []
    ensures AtMostOneNonEmpty(segments[..|segments| - 1])
    ensures segments[|segments| - 1] != [] ==> Concat(segments[..|segments| - 1]) == []
  {
    var n := |segments| - 1;
    var init := segments[..n];
    forall i, j | 0 <= i < j < n ensures init[i] == [] || init[j] == [] {
      assert segments[i] == [] || segments[j] == [];
    }
    if segments[n] != [] {
      forall i | 0 <= i < n ensures init[i] == [] {
        assert segments[i] == [];
      }
      AllEmpty(init);
    }
  }

  lemma {:induction false} OverlayUntouched(memory: Bytes, segments: seq<Bytes>, k: nat)
    requires k < |memory| && forall i :: 0 <= i < |segments| ==> |segments[i]| <= k
    ensures Overlay(memory, segments)[k] == memory[k]
    decreases |segments|
  {
    if segments != [] { OverlayUntouched(memory, segments[..|segments| - 1], k); }
  }

  lemma {:induction false} TwoSegmentsFit(segments: seq<Bytes>, i: nat, j: nat)
    requires i < j < |segments|
    ensures |segments[i]| + |segments[j]| <= |Concat(segments)|
    decreases |segments|
  {
    var init := segments[..|segments| - 1];
    if j < |segments| - 1 {
      TwoSegmentsFit(init, i, j);
    } else {
      SegmentFits(init, i);
    }
  }

  /** The loop as written gives the concatenation, whatever the memory held, exactly when at
      most one segment is not empty. */
  lemma AsWrittenIff(segments: seq<Bytes>)
    ensures forall i :: 0 <= i < |segments| ==> |segments[i]| <= |Concat(segments)|
    ensures (forall memory :: |memory| == |Concat(segments)| ==> Overlay(memory, segments) == Concat(segments))
            <==> AtMostOneNonEmpty(segments)
  {
    forall i | 0 <= i < |segments| ensures |segments[i]| <= |Concat(segments)| {
      SegmentFits(segments, i);
    }
    if AtMostOneNonEmpty(segments) {
      forall memory | |memory| == |Concat(segments)| ensures Overlay(memory, segments) == Concat(segments) {
        OverlayOfOne(memory, segments);
      }
    } else {
      var i, j :| 0 <= i < j < |segments| && segments[i] != [] && segments[j] != [];
      AsWrittenLosesBytes(segments, i, j);
    }
  }

  lemma {:induction false} ShorterThanAll(segments: seq<Bytes>, i: nat, j: nat, k: nat)
    requires i < j < |segments| && segments[i] != [] && segments[j] != [] && k < |segments|
    ensures |segments[k]| < |Concat(segments)|
  {
    if k < i {
      TwoSegmentsFit(segments, k, i);
    } else if k == i {
      TwoSegmentsFit(segments, i, j);
    } else {
      TwoSegmentsFit(segments, i, k);
    }
  }

  /** With two segments that are not empty, the last byte is never written. */
  lemma {:induction false} AsWrittenLosesBytes(segments: seq<Bytes>, i: nat, j: nat)
    requires i < j < |segments| && segments[i] != [] && segments[j] != []
    requires forall k :: 0 <= k < |segments| ==> |segments[k]| <= |Concat(segments)|
    ensures exists memory :: |memory| == |Concat(segments)| && Overlay(memory, segments) != Concat(segments)
  {
    var whole := Concat(segments);
    var end := |whole| - 1;
    forall k | 0 <= k < |segments| ensures |segments[k]| <= end {
      ShorterThanAll(segments, i, j, k);
    }
    ShorterThanAll(segments, i, j, i);
    var other: byte := if whole[end] == 0 then 1 else 0;
    var memory := whole[end := other];
    OverlayUntouched(memory, segments, end);
    assert Overlay(memory, segments)[end] != whole[end];
  }

  lemma SegmentsOfShortModel(segments: seq<Bytes>, chunkSize: nat)
    requires chunkSize > 0 && Chunked(segments, chunkSize)
    ensures |Concat(segments)| <= chunkSize <==> |segments| <= 1
    ensures |segments| <= 1 <==> AtMostOneNonEmpty(segments)
  {
    if |segments| >= 2 {
      var n := |segments| - 1;
      TwoSegmentsFit(segments, 0, n);
      assert segments[0] != [] && segments[n] != [];
    } else if |segments| == 1 {
      assert Concat(segments) == Concat([]) + segments[0];
    }
  }

  /** For a model cut into segments of a given size, the loop as written is right exactly when
      the model fits one segment. */
  lemma SplitModelSurvivesIff(model: Bytes, segments: seq<Bytes>, chunkSize: nat)
    requires chunkSize > 0 && Chunked(segments, chunkSize) && Concat(segments) == model
    ensures forall i :: 0 <= i < |segments| ==> |segments[i]| <= |model|
    ensures (forall memory :: |memory| == |model| ==> Overlay(memory, segments) == model) <==> |model| <= chunkSize
  {
    AsWrittenIff(segments);
    SegmentsOfShortModel(segments, chunkSize);
  }
}
