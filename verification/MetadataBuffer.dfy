/** The wire format of metadata fields (`include/metadatabuffer.h`). A string field is a type
    byte followed by one (8-byte length, content) entry per string; a scalar field is a type
    byte followed by fixed-width words. */
module MetadataBuffer {
  import opened Basics

  const STRING_TAG: byte := 7
  const SIZE_T_BYTES: nat := 8

  // ---------------------------------------------------------------------------------------
  // Little-endian words
  // ---------------------------------------------------------------------------------------

  function LittleEndian(n: nat, width: nat): (b: Bytes)
    ensures |b| == width
  {
    if width == 0 then [] else [(n % 0x100) as byte] + LittleEndian(n / 0x100, width - 1)
  }

  function FromLittleEndian(b: Bytes): nat {
    if b == [] then 0 else b[0] as nat + 0x100 * FromLittleEndian(b[1..])
  }

  function Pow256(width: nat): (p: nat)
    ensures p > 0
  {
    if width == 0 then 1 else 0x100 * Pow256(width - 1)
  }

  lemma {:induction false} LittleEndianInverse(n: nat, width: nat)
    requires n < Pow256(width)
    ensures FromLittleEndian(LittleEndian(n, width)) == n
  {
    if width > 0 {
      LittleEndianInverse(n / 0x100, width - 1);
    }
  }

  lemma LowByte(low: byte, rest: nat)
    ensures (low as nat + 0x100 * rest) % 0x100 == low as nat && (low as nat + 0x100 * rest) / 0x100 == rest
  {
  }

  lemma {:induction false} FromLittleEndianInverse(b: Bytes)
    ensures FromLittleEndian(b) < Pow256(|b|)
    ensures LittleEndian(FromLittleEndian(b), |b|) == b
  {
    if b != [] {
      FromLittleEndianInverse(b[1..]);
      LowByte(b[0], FromLittleEndian(b[1..]));
      assert b == [b[0]] + b[1..];
    }
  }

  lemma SizeLimitIsEightBytes()
    ensures Pow256(SIZE_T_BYTES) == SIZE_LIMIT
  {
    assert Pow256(4) == 0x1_0000_0000;
    assert Pow256(6) == 0x1_0000_0000_0000;
  }

  // ---------------------------------------------------------------------------------------
  // String fields: the format
  // ---------------------------------------------------------------------------------------

  function Entry(s: Bytes): Bytes {
    LittleEndian(|s|, SIZE_T_BYTES) + s
  }

  function Entries(xs: seq<Bytes>): Bytes {
    if xs == [] then [] else Entry(xs[0]) + Entries(xs[1..])
  }

  function SerializeStrings(xs: seq<Bytes>): Bytes {
    [STRING_TAG] + Entries(xs)
  }

  /** Every length fits the `size_t` it is written as. */
  ghost predicate Encodable(xs: seq<Bytes>) {
    forall i :: 0 <= i < |xs| ==> |xs[i]| < SIZE_LIMIT
  }

  function ReadLength(b: Bytes): nat
    requires |b| >= SIZE_T_BYTES
  {
    FromLittleEndian(b[..SIZE_T_BYTES])
  }

  function Prepend(vals: seq<Bytes>, r: Result<seq<Bytes>>): Result<seq<Bytes>> {
    match r
    case Ok(rest) => Ok(vals + rest)
    case Err(e) => Err(e)
  }

  /** A reference parser: it peels entries off the front and knows nothing of cursors. */
  function ParseEntries(b: Bytes): Result<seq<Bytes>>
    decreases |b|
  {
    if b == [] then Ok([])
    else if |b| < SIZE_T_BYTES then Err(RuntimeError)
    else
      var rest := b[SIZE_T_BYTES..];
      var n := ReadLength(b);
      if |rest| < n then Err(RuntimeError)
      else Prepend([rest[..n]], ParseEntries(rest[n..]))
  }

  function ParseStrings(buf: Bytes): Result<seq<Bytes>> {
    if buf == [] then Ok([])
    else if buf[0] != STRING_TAG then Err(RuntimeError)
    else ParseEntries(buf[1..])
  }

  lemma {:induction false} EntriesAppend(xs: seq<Bytes>, ys: seq<Bytes>)
    ensures Entries(xs + ys) == Entries(xs) + Entries(ys)
  {
    if xs == [] {
      assert xs + ys == ys;
    } else {
      assert (xs + ys)[1..] == xs[1..] + ys;
      EntriesAppend(xs[1..], ys);
    }
  }

  lemma EntriesSnoc(xs: seq<Bytes>, i: nat)
    requires i < |xs|
    ensures Entries(xs[..i + 1]) == Entries(xs[..i]) + Entry(xs[i])
  {
    assert xs[..i + 1] == xs[..i] + [xs[i]];
    EntriesAppend(xs[..i], [xs[i]]);
    assert Entries([xs[i]]) == Entry(xs[i]) + Entries([]);
  }

  /** The parser splits a leading entry off exactly. */
  lemma ParseEntry(s: Bytes, tail: Bytes)
    requires |s| < SIZE_LIMIT
    ensures ParseEntries(Entry(s) + tail) == Prepend([s], ParseEntries(tail))
  {
    var b := Entry(s) + tail;
    SizeLimitIsEightBytes();
    LittleEndianInverse(|s|, SIZE_T_BYTES);
    assert b[..SIZE_T_BYTES] == LittleEndian(|s|, SIZE_T_BYTES);
    var rest := b[SIZE_T_BYTES..];
    assert rest == s + tail;
    assert rest[..|s|] == s && rest[|s|..] == tail;
  }

  /** Round trip: what was serialized is read back. */
  lemma {:induction false} EntriesRoundTrip(xs: seq<Bytes>)
    requires Encodable(xs)
    ensures ParseEntries(Entries(xs)) == Ok(xs)
  {
    if xs != [] {
      ParseEntry(xs[0], Entries(xs[1..]));
      EntriesRoundTrip(xs[1..]);
      assert [xs[0]] + xs[1..] == xs;
    }
  }

  lemma StringsRoundTrip(xs: seq<Bytes>)
    requires Encodable(xs)
    ensures ParseStrings(SerializeStrings(xs)) == Ok(xs)
  {
    EntriesRoundTrip(xs);
    assert SerializeStrings(xs)[1..] == Entries(xs);
  }

  /** Converse: the parser accepts canonical encodings only. */
  lemma {:induction false} EntriesCanonical(b: Bytes)
    requires ParseEntries(b).Ok?
    ensures Encodable(ParseEntries(b).value)
    ensures Entries(ParseEntries(b).value) == b
    decreases |b|
  {
    if b != [] {
      var rest := b[SIZE_T_BYTES..];
      var n := ReadLength(b);
      EntriesCanonical(rest[n..]);
      var tail := ParseEntries(rest[n..]).value;
      EntryCanonical(b);
      EntriesCons(rest[..n], tail);
    }
  }

  /** The first entry an accepted buffer holds is the encoding of the string read from it. */
  lemma EntryCanonical(b: Bytes)
    requires |b| >= SIZE_T_BYTES && |b[SIZE_T_BYTES..]| >= ReadLength(b)
    ensures ReadLength(b) < SIZE_LIMIT
    ensures b == Entry(b[SIZE_T_BYTES..][..ReadLength(b)]) + b[SIZE_T_BYTES..][ReadLength(b)..]
  {
    var head, rest := b[..SIZE_T_BYTES], b[SIZE_T_BYTES..];
    SizeLimitIsEightBytes();
    FromLittleEndianInverse(head);
    var n := ReadLength(b);
    assert b == head + rest && rest == rest[..n] + rest[n..];
    assert Entry(rest[..n]) == head + rest[..n];
    assert head + (rest[..n] + rest[n..]) == head + rest[..n] + rest[n..];
  }

  lemma EntriesCons(x: Bytes, tail: seq<Bytes>)
    ensures Entries([x] + tail) == Entry(x) + Entries(tail)
  {
    assert ([x] + tail)[1..] == tail;
  }

  lemma StringsCanonical(buf: Bytes)
    requires buf != [] && ParseStrings(buf).Ok?
    ensures Encodable(ParseStrings(buf).value)
    ensures SerializeStrings(ParseStrings(buf).value) == buf
  {
    EntriesCanonical(buf[1..]);
    assert buf == [buf[0]] + buf[1..];
  }

  /** Two entries one of which is a prefix of the other's bytes are equal. */
  lemma EntryPrefix(y: Bytes, b: Bytes, x: Bytes, c: Bytes)
    requires |x| < SIZE_LIMIT && |y| < SIZE_LIMIT && Entry(y) + b <= Entry(x) + c
    ensures y == x && b <= c
  {
    SizeLimitIsEightBytes();
    LittleEndianInverse(|x|, SIZE_T_BYTES);
    LittleEndianInverse(|y|, SIZE_T_BYTES);
    var left, right, m := Entry(y) + b, Entry(x) + c, SIZE_T_BYTES + |x|;
    assert left[..SIZE_T_BYTES] == LittleEndian(|y|, SIZE_T_BYTES);
    assert right[..SIZE_T_BYTES] == LittleEndian(|x|, SIZE_T_BYTES);
    assert left[..SIZE_T_BYTES] == right[..SIZE_T_BYTES];
    assert left[SIZE_T_BYTES..m] == y && right[SIZE_T_BYTES..m] == x;
    assert left[SIZE_T_BYTES..m] == right[SIZE_T_BYTES..m];
    assert left[m..] == b && right[m..] == c && left[m..] <= right[m..];
  }

  /** No encoding is a proper prefix of another list's encoding unless the list is a prefix. */
  lemma {:induction false} EntriesPrefix(ys: seq<Bytes>, xs: seq<Bytes>)
    requires Encodable(xs) && Encodable(ys)
    requires Entries(ys) <= Entries(xs)
    ensures ys <= xs
  {
    if ys != [] {
      assert |Entries(ys)| >= SIZE_T_BYTES;
      assert xs != [];
      EntryPrefix(ys[0], Entries(ys[1..]), xs[0], Entries(xs[1..]));
      EntriesPrefix(ys[1..], xs[1..]);
      assert ys == [ys[0]] + ys[1..] && xs == [xs[0]] + xs[1..];
    }
  }

  lemma StringsInjective(xs: seq<Bytes>, ys: seq<Bytes>)
    requires Encodable(xs) && Encodable(ys)
    requires SerializeStrings(xs) == SerializeStrings(ys)
    ensures xs == ys
  {
    StringsRoundTrip(xs);
    StringsRoundTrip(ys);
  }

  /** Truncation: a cut on an entry boundary reads back exactly the entries before it. */
  lemma CutOnBoundary(xs: seq<Bytes>, k: nat)
    requires Encodable(xs) && k <= |xs|
    ensures |SerializeStrings(xs[..k])| <= |SerializeStrings(xs)|
    ensures ParseStrings(SerializeStrings(xs)[..|SerializeStrings(xs[..k])|]) == Ok(xs[..k])
  {
    EntriesAppend(xs[..k], xs[k..]);
    assert xs == xs[..k] + xs[k..];
    assert SerializeStrings(xs) == SerializeStrings(xs[..k]) + Entries(xs[k..]);
    StringsRoundTrip(xs[..k]);
  }

  /** Truncation: a cut inside an entry is refused. (The empty buffer reads as no strings.) */
  lemma CutInsideEntry(xs: seq<Bytes>, cut: nat)
    requires Encodable(xs) && 0 < cut <= |SerializeStrings(xs)|
    requires forall k :: 0 <= k <= |xs| ==> cut != |SerializeStrings(xs[..k])|
    ensures ParseStrings(SerializeStrings(xs)[..cut]) == Err(RuntimeError)
  {
    var buf := SerializeStrings(xs)[..cut];
    if ParseStrings(buf).Ok? {
      var k := AcceptedCut(xs, cut);
      assert false;
    } else {
      ParseErrors(buf[1..]);
    }
  }

  lemma AcceptedCut(xs: seq<Bytes>, cut: nat) returns (k: nat)
    requires Encodable(xs) && 0 < cut <= |SerializeStrings(xs)|
    requires ParseStrings(SerializeStrings(xs)[..cut]).Ok?
    ensures k <= |xs| && cut == |SerializeStrings(xs[..k])|
  {
    var buf := SerializeStrings(xs)[..cut];
    var ys := ParseStrings(buf).value;
    StringsCanonical(buf);
    assert buf[1..] == Entries(ys);
    assert SerializeStrings(xs)[1..] == Entries(xs);
    assert Entries(ys) <= Entries(xs);
    EntriesPrefix(ys, xs);
    k := |ys|;
    assert ys == xs[..k];
  }

  lemma {:induction false} ParseErrors(b: Bytes)
    ensures ParseEntries(b).Err? ==> ParseEntries(b).error == RuntimeError
    decreases |b|
  {
    if |b| >= SIZE_T_BYTES && |b| - SIZE_T_BYTES >= ReadLength(b) {
      ParseErrors(b[SIZE_T_BYTES..][ReadLength(b)..]);
    }
  }

  /** The bytes of one short string: the type byte, its length as an 8-byte word with the low byte
      first, its content. */
  lemma OneStringBytes(x: Bytes)
    requires |x| < 0x100
    ensures SerializeStrings([x]) == [7, |x| as byte, 0, 0, 0, 0, 0, 0, 0] + x
  {
    assert LittleEndian(0, 1) == [0];
    assert LittleEndian(0, 3) == [0, 0, 0];
    assert LittleEndian(0, 5) == [0, 0, 0, 0, 0];
    assert LittleEndian(0, 7) == [0, 0, 0, 0, 0, 0, 0];
    assert LittleEndian(|x|, 8) == [|x| as byte] + LittleEndian(0, 7);
    assert Entries([x]) == Entry(x) + Entries([]);
  }

  /** Byte `k` of a length word counts 256 to the `k`. */
  lemma {:induction false} WordByte(n: nat, width: nat, k: nat)
    requires k < width
    ensures LittleEndian(n, width)[k] as int == (n / Pow256(k)) % 0x100
  {
    if k > 0 {
      WordByte(n / 0x100, width - 1, k - 1);
      DivideTwice(n, Pow256(k - 1));
    }
  }

  lemma {:induction false} DivideTwice(n: nat, p: nat)
    requires p > 0
    ensures (n / 0x100) / p == n / (0x100 * p)
  {
    var q, r := n / 0x100, n % 0x100;
    var a, b := q / p, q % p;
    assert n == 0x100 * (a * p + b) + r;
    assert n == a * (0x100 * p) + (0x100 * b + r);
    assert 0 <= 0x100 * b + r < 0x100 * p;
    UniqueQuotient(n, 0x100 * p, a, 0x100 * b + r);
  }

  lemma {:induction false} SmallMultiple(e: int, d: nat, x: int)
    requires e * d == x && 0 - d < x < d
    ensures e == 0
  {
  }

  lemma {:induction false} UniqueQuotient(n: nat, d: nat, q: nat, r: nat)
    requires n == q * d + r && r < d
    ensures n / d == q
  {
    SmallMultiple(n / d - q, d, r - n % d);
  }

  /** Two lists one after the other: the entries follow each other behind one type byte. */
  lemma StringsAppend(xs: seq<Bytes>, ys: seq<Bytes>)
    ensures SerializeStrings(xs + ys) == SerializeStrings(xs) + SerializeStrings(ys)[1..]
  {
    EntriesAppend(xs, ys);
  }

  /** Which buffers are accepted: the empty one, and the encodings. */
  lemma StringsAcceptedIff(buf: Bytes)
    ensures ParseStrings(buf).Ok? <==> buf == [] || exists xs :: Encodable(xs) && SerializeStrings(xs) == buf
    ensures ParseStrings([]) == Ok([])
    ensures ParseStrings(buf).Err? ==> ParseStrings(buf).error == RuntimeError
  {
    if buf != [] {
      ParseErrors(buf[1..]);
      if ParseStrings(buf).Ok? {
        StringsCanonical(buf);
      }
      if xs :| Encodable(xs) && SerializeStrings(xs) == buf {
        StringsRoundTrip(xs);
      }
    }
  }

  // ---------------------------------------------------------------------------------------
  // String fields: the code
  // ---------------------------------------------------------------------------------------

  function SumLengths(xs: seq<Bytes>): nat {
    if xs == [] then 0 else SumLengths(xs[..|xs| - 1]) + |xs[|xs| - 1]|
  }

  lemma {:induction false} SerializedLength(xs: seq<Bytes>)
    ensures |Entries(xs)| == SIZE_T_BYTES * |xs| + SumLengths(xs)
    decreases |xs|
  {
    if xs != [] {
      SerializedLength(xs[..|xs| - 1]);
      EntriesSnoc(xs, |xs| - 1);
      assert xs[..|xs| - 1 + 1] == xs;
    }
  }

  lemma EntriesPrefixLength(xs: seq<Bytes>, i: nat)
    requires i <= |xs|
    ensures |Entries(xs[..i])| <= |Entries(xs)|
  {
    assert xs == xs[..i] + xs[i..];
    EntriesAppend(xs[..i], xs[i..]);
  }

  /** `memcpy(buf.data() + pos, data, n)`; the precondition is that the copy is in bounds. */
  method AddBufData(buf: array<byte>, pos: nat, data: Bytes)
    requires pos + |data| <= buf.Length
    modifies buf
    ensures buf[..pos] == old(buf[..pos])
    ensures buf[pos..pos + |data|] == data
    ensures buf[pos + |data|..] == old(buf[pos + |data|..])
  {
    forall i | 0 <= i < |data| {
      buf[pos + i] := data[i];
    }
  }

  /** One round of the fill loop: the length word, then the content. */
  method AddEntry(buf: array<byte>, start: nat, s: Bytes) returns (pos: nat)
    requires start + |Entry(s)| <= buf.Length
    modifies buf
    ensures pos == start + |Entry(s)|
    ensures buf[..pos] == old(buf[..start]) + Entry(s)
  {
    pos := start;
    var size := LittleEndian(|s|, SIZE_T_BYTES);
    AddBufData(buf, pos, size);
    pos := pos + SIZE_T_BYTES;
    assert buf[..pos] == buf[..start] + buf[start..pos];
    AddBufData(buf, pos, s);
    assert buf[..pos + |s|] == buf[..pos] + buf[pos..pos + |s|];
    pos := pos + |s|;
  }

  /** The size that `generate_string_buf` computes before it allocates. */
  method BufferSize(data: seq<Bytes>) returns (nBytes: nat)
    ensures nBytes == |SerializeStrings(data)|
  {
    var dataBytes := 0;
    for i := 0 to |data|
      invariant dataBytes == SumLengths(data[..i])
    {
      assert data[..i + 1][..i] == data[..i];
      dataBytes := dataBytes + |data[i]|;
    }
    assert data[..|data|] == data;
    SerializedLength(data);
    nBytes := 1 + SIZE_T_BYTES * |data| + dataBytes;
  }

  /** `generate_string_buf`: the buffer is sized up front and then filled by copies. The final
      assertion inside says the copies end exactly at its end. */
  method GenerateStringBuf(data: seq<Bytes>) returns (out: Bytes)
    ensures out == SerializeStrings(data)
  {
    var nBytes := BufferSize(data);
    var buf := new byte[nBytes](_ => 0);
    AddBufData(buf, 0, [STRING_TAG]);
    var pos := 1;
    for i := 0 to |data|
      invariant pos == |SerializeStrings(data[..i])| <= buf.Length == |SerializeStrings(data)|
      invariant buf[..pos] == SerializeStrings(data[..i])
    {
      EntriesSnoc(data, i);
      EntriesPrefixLength(data, i + 1);
      pos := AddEntry(buf, pos, data[i]);
    }
    assert data[..|data|] == data;
    assert pos == buf.Length;
    out := buf[..];
  }

  /** The guard before every read, in `size_t` arithmetic: the subtraction would wrap around
      for a position past the end. */
  predicate SafeToRead(position: nat, total: nat, n: nat, width: nat)
    requires width > 0
  {
    ((total - position) % SIZE_LIMIT) / width >= n
  }

  lemma SafeToReadMeaning(position: nat, total: nat, n: nat, width: nat)
    requires width > 0 && position <= total < SIZE_LIMIT
    ensures SafeToRead(position, total, n, width) <==> position + n * width <= total
  {
    assert (total - position) % SIZE_LIMIT == total - position;
    QuotientAtLeast(total - position, n, width);
  }

  lemma QuotientAtLeast(left: nat, n: nat, width: nat)
    requires width > 0
    ensures left / width >= n <==> n * width <= left
  {
    var q := left / width;
    assert q * width <= left < (q + 1) * width;
    if q >= n {
      assert n * width <= q * width;
    } else {
      assert (q + 1) * width <= n * width;
    }
  }

  /** Past the end the guard is no protection: the wrapped distance accepts a read of any
      size up to the distance back to the cursor. */
  lemma SafeToReadWraps(position: nat, total: nat, n: nat)
    requires total < position < SIZE_LIMIT
    requires n <= SIZE_LIMIT - (position - total)
    ensures SafeToRead(position, total, n, 1)
  {
    assert (total - position) % SIZE_LIMIT == SIZE_LIMIT - (position - total);
  }

  /** `read<T>` at the pointer `data`, giving the bytes of the value. */
  function Read(buf: Bytes, data: nat, position: nat, total: nat, width: nat): (r: Result<Bytes>)
    requires 0 < width && data == position <= total == |buf| < SIZE_LIMIT
    ensures r == if position + width <= total then Ok(buf[position..position + width])
                 else Err(RuntimeError)
  {
    SafeToReadMeaning(position, total, 1, width);
    if !SafeToRead(position, total, 1, width) then Err(RuntimeError)
    else Ok(buf[data..data + width])
  }

  /** `advance<T>`: moves the pointer and the position in step, or moves neither. */
  method Advance(data: nat, position: nat, total: nat, n: nat, width: nat)
    returns (data': nat, position': nat, ok: bool)
    requires width > 0 && data == position <= total < SIZE_LIMIT
    ensures ok <==> position + n * width <= total
    ensures position' == if ok then position + n * width else position
    ensures data' == position' <= total
  {
    SafeToReadMeaning(position, total, n, width);
    if !SafeToRead(position, total, n, width) {
      return data, position, false;
    }
    return data + n * width, position + n * width, true;
  }

  /** `unpack_string_buf`: a cursor loop. The `return vals` that the code writes after each
      `advance` is dead: every advance follows a read of the same size. */
  method UnpackStringBuf(buf: Bytes) returns (r: Result<seq<Bytes>>)
    requires |buf| < SIZE_LIMIT
    ensures r == ParseStrings(buf)
  {
    var position, data, total := 0, 0, |buf|;
    if total == 0 {
      return Ok([]);
    }
    var tag := Read(buf, data, position, total, 1);
    if tag.value[0] != STRING_TAG {
      return Err(RuntimeError);
    }
    var ok;
    data, position, ok := Advance(data, position, total, 1, 1);
    if !ok { assert false; }
    var vals: seq<Bytes> := [];
    assert Prepend([], ParseEntries(buf[1..])) == ParseEntries(buf[1..]) by { PrependNothing(ParseEntries(buf[1..])); }
    while position < total
      invariant 0 < position <= total && data == position
      invariant ParseStrings(buf) == Prepend(vals, ParseEntries(buf[position..]))
      decreases total - position
    {
      ghost var left := buf[position..];
      ghost var before := vals;
      var word := Read(buf, data, position, total, SIZE_T_BYTES);
      if word.Err? {
        return Err(RuntimeError);
      }
      assert word.value == left[..SIZE_T_BYTES];
      var strLen := FromLittleEndian(word.value);
      data, position, ok := Advance(data, position, total, 1, SIZE_T_BYTES);
      if !ok { assert false; }
      assert buf[position..] == left[SIZE_T_BYTES..];
      SafeToReadMeaning(position, total, strLen, 1);
      if !SafeToRead(position, total, strLen, 1) {
        return Err(RuntimeError);
      }
      assert buf[data..data + strLen] == left[SIZE_T_BYTES..][..strLen];
      vals := vals + [buf[data..data + strLen]];
      data, position, ok := Advance(data, position, total, strLen, 1);
      if !ok { assert false; }
      assert vals == before + [left[SIZE_T_BYTES..][..strLen]];
      assert buf[position..] == left[SIZE_T_BYTES..][strLen..];
      PrependTwice(before, left[SIZE_T_BYTES..][..strLen], ParseEntries(buf[position..]));
    }
    assert buf[position..] == [];
    assert vals + [] == vals;
    return Ok(vals);
  }

  lemma PrependNothing(r: Result<seq<Bytes>>)
    ensures Prepend([], r) == r
  {
    if r.Ok? { assert [] + r.value == r.value; }
  }

  lemma PrependTwice(vals: seq<Bytes>, x: Bytes, r: Result<seq<Bytes>>)
    ensures Prepend(vals, Prepend([x], r)) == Prepend(vals + [x], r)
  {
    if r.Ok? { assert vals + ([x] + r.value) == vals + [x] + r.value; }
  }

  // ---------------------------------------------------------------------------------------
  // Scalar fields
  // ---------------------------------------------------------------------------------------

  /** The type byte as the signed `type_t` it is cast to. */
  function GetType(buf: Bytes): Result<int> {
    if |buf| < 1 then Err(RuntimeError)
    else Ok(if buf[0] < 0x80 then buf[0] as int else buf[0] as int - 0x100)
  }

  /** Every value is one word of `width` bytes. */
  ghost predicate Words(vals: seq<Bytes>, width: nat) {
    forall i :: 0 <= i < |vals| ==> |vals[i]| == width
  }

  /** Cutting a byte string into words from the front. */
  function SplitWords(data: Bytes, width: nat): (vals: seq<Bytes>)
    requires width > 0 && |data| % width == 0
    decreases |data|
  {
    if data == [] then []
    else
      WordFits(|data|, width);
      [data[..width]] + SplitWords(data[width..], width)
  }

  lemma WordFits(n: nat, width: nat)
    requires width > 0 && n > 0 && n % width == 0
    ensures n >= width && (n - width) % width == 0 && (n - width) / width == n / width - 1
  {
    var q := n / width;
    assert n == q * width;
    assert q >= 1;
    assert n - width == (q - 1) * width;
    DivideExact(q - 1, width);
  }

  lemma NoMultiple(d: int, width: nat, r: int)
    requires 0 <= r < width && d * width + r == 0
    ensures d == 0 && r == 0
  {
  }

  lemma DivideExact(q: nat, width: nat)
    requires width > 0
    ensures (q * width) / width == q && (q * width) % width == 0
  {
    var n := q * width;
    var d, r := n / width - q, n % width;
    assert d * width == (n / width) * width - q * width;
    NoMultiple(d, width, r);
  }

  lemma OneMoreWord(n: nat, width: nat)
    ensures n * width + width == (n + 1) * width
  {
  }

  lemma {:induction false} ConcatWordsLength(vals: seq<Bytes>, width: nat)
    requires Words(vals, width)
    ensures |Concat(vals)| == |vals| * width
    decreases |vals|
  {
    if vals != [] {
      var n := |vals| - 1;
      ConcatWordsLength(vals[..n], width);
      assert |Concat(vals)| == |Concat(vals[..n])| + |vals[n]|;
      OneMoreWord(n, width);
    }
  }

  lemma ConcatFront(vals: seq<Bytes>)
    requires vals != []
    ensures Concat(vals) == vals[0] + Concat(vals[1..])
  {
    assert vals == [vals[0]] + vals[1..];
    ConcatAppend([vals[0]], vals[1..]);
    assert Concat([vals[0]]) == Concat([]) + vals[0];
  }

  lemma {:induction false} SplitConcat(vals: seq<Bytes>, width: nat)
    requires width > 0 && Words(vals, width)
    ensures |Concat(vals)| % width == 0
    ensures SplitWords(Concat(vals), width) == vals
    decreases |vals|
  {
    ConcatWordsLength(vals, width);
    DivideExact(|vals|, width);
    if vals != [] {
      ConcatFront(vals);
      SplitConcat(vals[1..], width);
      var data := Concat(vals);
      assert |data| > 0 by { assert |vals[0]| == width; }
      assert data[..width] == vals[0] && data[width..] == Concat(vals[1..]);
      assert vals == [vals[0]] + vals[1..];
    }
  }

  lemma {:induction false} ConcatSplit(data: Bytes, width: nat)
    requires width > 0 && |data| % width == 0
    ensures Words(SplitWords(data, width), width)
    ensures |SplitWords(data, width)| == |data| / width
    ensures Concat(SplitWords(data, width)) == data
    decreases |data|
  {
    if data != [] {
      WordFits(|data|, width);
      ConcatSplit(data[width..], width);
      var vals := SplitWords(data, width);
      ConcatFront(vals);
      assert vals[1..] == SplitWords(data[width..], width);
      assert data == data[..width] + data[width..];
    }
  }

  function SerializeScalars(tag: byte, vals: seq<Bytes>): Bytes {
    [tag] + Concat(vals)
  }

  /** A reference reader for scalar fields of a given width. */
  function ParseScalars(buf: Bytes, width: nat): Result<seq<Bytes>>
    requires width > 0
  {
    if buf == [] || |buf[1..]| % width != 0 then Err(RuntimeError)
    else Ok(SplitWords(buf[1..], width))
  }

  /** `generate_scalar_buf`: one type byte, then one copy of all the values. */
  method GenerateScalarBuf(tag: byte, vals: seq<Bytes>, width: nat) returns (out: Bytes)
    requires Words(vals, width)
    ensures out == SerializeScalars(tag, vals)
  {
    var buf := new byte[1 + width * |vals|](_ => 0);
    AddBufData(buf, 0, [tag]);
    ConcatWordsLength(vals, width);
    AddBufData(buf, 1, Concat(vals));
    out := buf[..];
    assert out == buf[..1] + buf[1..1 + |Concat(vals)|];
  }

  /** `unpack_scalar_buf`: `vals` is sized by division and filled by one copy. */
  method UnpackScalarBuf(buf: Bytes, width: nat) returns (r: Result<seq<Bytes>>)
    requires 0 < width && |buf| < SIZE_LIMIT
    ensures r == ParseScalars(buf, width)
  {
    var position, data, total := 0, 0, |buf|;
    var tag := Read(buf, data, position, total, 1);
    if tag.Err? {
      return Err(RuntimeError);
    }
    var ok;
    data, position, ok := Advance(data, position, total, 1, 1);
    if !ok { assert false; }
    if (total - position) % width != 0 {
      return Err(RuntimeError);
    }
    var nVals := (total - position) / width;
    var vals := CopyWords(buf[data..], width, nVals);
    return Ok(vals);
  }

  /** The one `memcpy` of `n` words into a vector of `n` elements. */
  function CopyWords(data: Bytes, width: nat, n: nat): (vals: seq<Bytes>)
    requires width > 0 && |data| % width == 0 && n == |data| / width
    ensures vals == SplitWords(data, width)
  {
    ConcatSplit(data, width);
    seq(n, i requires 0 <= i < n => Word(data, width, i))
  }

  function Word(data: Bytes, width: nat, i: nat): (w: Bytes)
    requires width > 0 && |data| % width == 0 && i < |data| / width
    ensures i < |SplitWords(data, width)| && w == SplitWords(data, width)[i]
  {
    WordAt(data, width, i);
    data[i * width..(i + 1) * width]
  }

  lemma {:induction false} WordAt(data: Bytes, width: nat, i: nat)
    requires width > 0 && |data| % width == 0 && i < |data| / width
    ensures 0 <= i * width <= (i + 1) * width <= |data|
    ensures i < |SplitWords(data, width)|
    ensures data[i * width..(i + 1) * width] == SplitWords(data, width)[i]
  {
    WordFits(|data|, width);
    if i > 0 {
      WordAt(data[width..], width, i - 1);
      assert (i - 1) * width + width == i * width && i * width + width == (i + 1) * width;
      assert data[width..][(i - 1) * width..i * width] == data[i * width..(i + 1) * width];
    }
  }

  /** Scalar fields round-trip, and the type byte comes back (the tags are below 0x80). */
  lemma ScalarsRoundTrip(tag: byte, vals: seq<Bytes>, width: nat)
    requires width > 0 && Words(vals, width) && tag < 0x80
    ensures ParseScalars(SerializeScalars(tag, vals), width) == Ok(vals)
    ensures GetType(SerializeScalars(tag, vals)) == Ok(tag as int)
  {
    assert SerializeScalars(tag, vals)[1..] == Concat(vals);
    SplitConcat(vals, width);
  }

  /** Converse: whatever is accepted re-serializes to the same bytes; the only buffers refused
      are the empty one and those whose data part is not a whole number of words. */
  lemma ScalarsCanonical(buf: Bytes, width: nat)
    requires width > 0
    ensures ParseScalars(buf, width).Err? <==> buf == [] || (|buf| - 1) % width != 0
    ensures ParseScalars(buf, width).Ok? ==>
              && Words(ParseScalars(buf, width).value, width)
              && SerializeScalars(buf[0], ParseScalars(buf, width).value) == buf
  {
    if ParseScalars(buf, width).Ok? {
      ConcatSplit(buf[1..], width);
      assert buf == [buf[0]] + buf[1..];
    }
  }

  /** Where the bytes of a scalar field are: the type byte, then value after value. */
  lemma ScalarBytes(tag: byte, vals: seq<Bytes>, width: nat, i: nat)
    requires Words(vals, width) && i < |vals|
    ensures SerializeScalars(tag, vals)[0] == tag
    ensures 0 <= 1 + i * width <= 1 + i * width + width <= |SerializeScalars(tag, vals)|
    ensures SerializeScalars(tag, vals)[1 + i * width..1 + i * width + width] == vals[i]
  {
    assert vals == vals[..i] + [vals[i]] + vals[i + 1..];
    ConcatAppend(vals[..i] + [vals[i]], vals[i + 1..]);
    assert (vals[..i] + [vals[i]])[..i] == vals[..i];
    ConcatWordsLength(vals[..i], width);
  }

  /** The type is read as a signed byte. */
  lemma TypeIsSigned(buf: Bytes)
    ensures buf == [] ==> GetType(buf) == Err(RuntimeError)
    ensures buf != [] ==> GetType(buf).Ok? && -128 <= GetType(buf).value < 128 && (GetType(buf).value - buf[0] as int) % 0x100 == 0
  {
  }
}
