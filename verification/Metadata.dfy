/** Metadata fields, their place in a Redis hash, and the DataSet that owns them
    (`src/cpp/metadata.cpp`, `src/cpp/dataset.cpp`, `src/cpp/client.cpp`). */
module Metadata {
  import opened Basics
  import opened MetadataBuffer

  /** A field's values: words of the width its type byte says, or strings. */
  datatype Field =
    | ScalarField(tag: byte, words: seq<Bytes>)
    | StringField(strings: seq<Bytes>)

  type Fields = map<Bytes, Field>

  /** The types a client can name. */
  datatype TensorType = Double | Float | Int64 | Int32 | Int16 | Int8 | Uint16 | Uint8

  /** A tensor as the server stores it: type, dimensions, contiguous data. */
  datatype Tensor = Tensor(dtype: TensorType, dims: seq<nat>, blob: Bytes)

  /** The tensors are named uniquely; iterating them yields a listing of this map. */
  datatype DataSet = DataSet(name: Bytes, fields: Fields, tensors: map<Bytes, Tensor>)

  /** The hash field that confirms a complete placement. */
  const ACK_FIELD := Ascii(".COMPLETE")
  const ACK_VALUE := Ascii("1")
  /** The internal field that lists the tensors. */
  const TENSOR_NAMES := Ascii(".tensor_names")

  /** `SRMetadataTypeDouble` to `SRMetadataTypeUint64`. */
  predicate IsScalarTag(tag: int) { 1 <= tag <= 6 }

  /** `sizeof` double, float, int32, int64, uint32, uint64. */
  function ScalarWidth(tag: int): (w: nat)
    requires IsScalarTag(tag)
    ensures w > 0
  {
    if tag == 1 || tag == 4 || tag == 6 then 8 else 4
  }

  ghost predicate ValidField(f: Field) {
    match f
    case ScalarField(tag, words) => IsScalarTag(tag as int) && Words(words, ScalarWidth(tag as int))
    case StringField(strings) => Encodable(strings)
  }

  function SerializeField(f: Field): Bytes {
    match f
    case ScalarField(tag, words) => SerializeScalars(tag, words)
    case StringField(strings) => SerializeStrings(strings)
  }

  /** The type dispatch of `add_serialized_field`. */
  function DeserializeField(buf: Bytes): Result<Field> {
    var tag :- GetType(buf);
    if IsScalarTag(tag) then
      var words :- ParseScalars(buf, ScalarWidth(tag));
      Ok(ScalarField(tag as byte, words))
    else if tag == STRING_TAG as int then
      var strings :- ParseStrings(buf);
      Ok(StringField(strings))
    else Err(RuntimeError)
  }

  lemma FieldRoundTrip(f: Field)
    requires ValidField(f)
    ensures DeserializeField(SerializeField(f)) == Ok(f)
  {
    match f
    case ScalarField(tag, words) => ScalarsRoundTrip(tag, words, ScalarWidth(tag as int));
    case StringField(strings) => StringsRoundTrip(strings);
  }

  /** Accepted field buffers are canonical: reading and writing back changes no byte. */
  lemma FieldCanonical(buf: Bytes)
    requires DeserializeField(buf).Ok?
    ensures ValidField(DeserializeField(buf).value)
    ensures SerializeField(DeserializeField(buf).value) == buf
  {
    var tag := GetType(buf).value;
    if IsScalarTag(tag) {
      ScalarsCanonical(buf, ScalarWidth(tag));
    } else {
      StringsCanonical(buf);
    }
  }

  /** The widths in numbers: the types 1, 4 and 6 have 8-byte words, 2, 3 and 5 have 4-byte words,
      and a word of the other width is refused. */
  lemma WordWidths(w: Bytes)
    ensures |w| == 8 ==> forall t: byte :: t == 1 || t == 4 || t == 6 ==> DeserializeField([t] + w) == Ok(ScalarField(t, [w]))
    ensures |w| == 4 ==> forall t: byte :: t == 2 || t == 3 || t == 5 ==> DeserializeField([t] + w) == Ok(ScalarField(t, [w]))
    ensures |w| == 4 ==> forall t: byte :: t == 1 || t == 4 || t == 6 ==> DeserializeField([t] + w) == Err(RuntimeError)
    ensures forall t: byte :: t == 0 || t > 7 ==> DeserializeField([t] + w) == Err(RuntimeError)
  {
    forall t: byte | 1 <= t <= 6 && |w| == ScalarWidth(t as int) ensures DeserializeField([t] + w) == Ok(ScalarField(t, [w])) {
      OneWord(t, w);
    }
    forall t: byte ensures ([t] + w)[1..] == w && ([t] + w)[0] == t {}
  }

  lemma OneWord(t: byte, w: Bytes)
    requires 1 <= t <= 6 && |w| == ScalarWidth(t as int)
    ensures DeserializeField([t] + w) == Ok(ScalarField(t, [w]))
  {
    var f := ScalarField(t, [w]);
    FieldRoundTrip(f);
    assert Concat([w]) == Concat([]) + w;
    assert SerializeField(f) == [t] + w;
  }

  lemma DeserializeErrors(buf: Bytes)
    ensures DeserializeField(buf).Err? ==> DeserializeField(buf).error == RuntimeError
  {
    if buf != [] { ParseErrors(buf[1..]); }
  }

  // ---------------------------------------------------------------------------------------
  // Fields in a Redis hash
  // ---------------------------------------------------------------------------------------

  function SerializeFields(fields: Fields): map<Bytes, Bytes> {
    map k | k in fields :: SerializeField(fields[k])
  }

  /** What a metadata hash means: every entry but the acknowledgement is a field. */
  function DecodeHash(h: map<Bytes, Bytes>): Result<Fields> {
    if forall k :: k in h && k != ACK_FIELD ==> DeserializeField(h[k]).Ok? then
      Ok(map k | k in h && k != ACK_FIELD :: DeserializeField(h[k]).value)
    else Err(RuntimeError)
  }

  ghost predicate ValidFields(fields: Fields) {
    ACK_FIELD !in fields && forall k :: k in fields ==> ValidField(fields[k])
  }

  /** A hash decodes when every field in it does. */
  lemma DecodeMeans(h: map<Bytes, Bytes>, fields: Fields)
    requires fields.Keys == h.Keys - {ACK_FIELD}
    requires forall k :: k in fields ==> DeserializeField(h[k]) == Ok(fields[k])
    ensures DecodeHash(h) == Ok(fields)
  {
    forall k | k in h && k != ACK_FIELD ensures k in fields && DeserializeField(h[k]) == Ok(fields[k]) {
      assert k in fields.Keys;
    }
    assert DecodeHash(h).value == fields;
  }

  /** Fields survive the hash, and the acknowledgement never shows up as metadata. */
  lemma HashRoundTrip(fields: Fields)
    requires ValidFields(fields)
    ensures DecodeHash(SerializeFields(fields)) == Ok(fields)
    ensures DecodeHash(SerializeFields(fields)[ACK_FIELD := ACK_VALUE]) == Ok(fields)
  {
    forall k | k in fields ensures DeserializeField(SerializeField(fields[k])) == Ok(fields[k]) {
      FieldRoundTrip(fields[k]);
    }
    var h := SerializeFields(fields);
    assert h.Keys == fields.Keys;
    DecodeMeans(h, fields);
    DecodeMeans(h[ACK_FIELD := ACK_VALUE], fields);
  }

  /** Decoding a hash and encoding it again gives back the bytes of every field. */
  lemma HashCanonical(h: map<Bytes, Bytes>)
    requires DecodeHash(h).Ok?
    ensures ValidFields(DecodeHash(h).value)
    ensures SerializeFields(DecodeHash(h).value) == h - {ACK_FIELD}
  {
    forall k | k in h && k != ACK_FIELD
      ensures ValidField(DeserializeField(h[k]).value)
      ensures SerializeField(DeserializeField(h[k]).value) == h[k]
    {
      FieldCanonical(h[k]);
    }
  }

  /** The flat reply of HGETALL: field, value, field, value... */
  function Flat(pairs: seq<(Bytes, Bytes)>): (r: seq<Bytes>)
    ensures |r| == 2 * |pairs|
    ensures forall i :: 0 <= i < |pairs| ==> r[2 * i] == pairs[i].0 && r[2 * i + 1] == pairs[i].1
  {
    if pairs == [] then []
    else
      var last := pairs[|pairs| - 1];
      Flat(pairs[..|pairs| - 1]) + [last.0, last.1]
  }

  /** `MetaData::add_serialized_field`, skipping the acknowledgement as its caller does. */
  function AddPair(fields: Fields, name: Bytes, buf: Bytes): Result<Fields> {
    if name == ACK_FIELD then Ok(fields)
    else if name in fields then Err(RuntimeError)
    else match DeserializeField(buf)
      case Ok(f) => Ok(fields[name := f])
      case Err(e) => Err(e)
  }

  /** The fields that the first `n` reply pairs add to an empty DataSet, in reply order. */
  function UnpackPairs(reply: seq<Bytes>, n: nat): (r: Result<Fields>)
    requires 2 * n <= |reply|
  {
    if n == 0 then Ok(map[])
    else
      var fields :- UnpackPairs(reply, n - 1);
      AddPair(fields, reply[2 * (n - 1)], reply[2 * (n - 1) + 1])
  }

  function UnpackReply(reply: seq<Bytes>): Result<Fields> {
    if |reply| % 2 != 0 then Err(RuntimeError) else UnpackPairs(reply, |reply| / 2)
  }

  lemma {:induction false} UnpackErrorStays(reply: seq<Bytes>, i: nat, n: nat)
    requires i <= n && 2 * n <= |reply|
    requires UnpackPairs(reply, i).Err?
    ensures UnpackPairs(reply, n) == UnpackPairs(reply, i)
    decreases n
  {
    if i < n { UnpackErrorStays(reply, i, n - 1); }
  }

  /** `_unpack_dataset_metadata`: a loop over the pairs of the reply. */
  method UnpackDatasetMetadata(reply: seq<Bytes>) returns (r: Result<Fields>)
    requires forall i :: 0 <= i < |reply| ==> |reply[i]| < SIZE_LIMIT
    ensures r == UnpackReply(reply)
  {
    if |reply| % 2 != 0 {
      return Err(RuntimeError);
    }
    var fields: Fields := map[];
    var i := 0;
    ghost var n := 0;
    while i < |reply|
      invariant i == 2 * n <= |reply|
      invariant UnpackPairs(reply, n) == Ok(fields)
    {
      var fieldName := reply[i];
      if fieldName != ACK_FIELD {
        var f := AddSerializedField(fields, fieldName, reply[i + 1]);
        assert UnpackPairs(reply, n + 1) == f;
        if f.Err? {
          UnpackErrorStays(reply, n + 1, |reply| / 2);
          return f;
        }
        fields := f.value;
      }
      i := i + 2;
      n := n + 1;
    }
    return Ok(fields);
  }

  /** `MetaData::add_serialized_field`: the buffer is dispatched on its type byte. */
  method AddSerializedField(fields: Fields, name: Bytes, buf: Bytes) returns (r: Result<Fields>)
    requires |buf| < SIZE_LIMIT
    ensures r == if name in fields then Err(RuntimeError)
                 else match DeserializeField(buf)
                      case Ok(f) => Ok(fields[name := f])
                      case Err(e) => Err(e)
  {
    var tag := GetType(buf);
    if tag.Err? {
      return Err(RuntimeError);
    }
    if name in fields {
      return Err(RuntimeError);
    }
    if IsScalarTag(tag.value) {
      var words := UnpackScalarBuf(buf, ScalarWidth(tag.value));
      if words.Err? { return Err(words.error); }
      return Ok(fields[name := ScalarField(tag.value as byte, words.value)]);
    } else if tag.value == STRING_TAG as int {
      var strings := UnpackStringBuf(buf);
      if strings.Err? { return Err(strings.error); }
      return Ok(fields[name := StringField(strings.value)]);
    } else {
      return Err(RuntimeError);
    }
  }

  /** `serialize()` of one field. */
  method GenerateFieldBuf(f: Field) returns (buf: Bytes)
    requires ValidField(f)
    ensures buf == SerializeField(f)
  {
    match f
    case ScalarField(tag, words) => buf := GenerateScalarBuf(tag, words, ScalarWidth(tag as int));
    case StringField(strings) => buf := GenerateStringBuf(strings);
  }

  /** Adding one more entry to a hash adds one more field to its meaning. */
  lemma DecodeInsert(h: map<Bytes, Bytes>, name: Bytes, buf: Bytes)
    requires name !in h
    ensures DecodeHash(h[name := buf]) ==
            match DecodeHash(h)
            case Ok(fields) => AddPair(fields, name, buf)
            case Err(e) => Err(e)
  {
    var g := h[name := buf];
    forall k | k in h ensures k in g && g[k] == h[k] {}
    DeserializeErrors(buf);
    if DecodeHash(h).Err? {
      var k :| k in h && k != ACK_FIELD && DeserializeField(h[k]).Err?;
      assert k in g && DeserializeField(g[k]).Err?;
    } else if name != ACK_FIELD && DeserializeField(buf).Err? {
      assert name in g && DeserializeField(g[name]).Err?;
    } else {
      var fields := DecodeHash(h).value;
      assert DecodeHash(g).Ok?;
      if name == ACK_FIELD {
        assert DecodeHash(g).value == fields;
      } else {
        assert DecodeHash(g).value == fields[name := DeserializeField(buf).value];
      }
    }
  }

  lemma {:induction false} PairsToMapKeys(pairs: seq<(Bytes, Bytes)>, k: Bytes)
    requires k in PairsToMap(pairs)
    ensures exists i :: 0 <= i < |pairs| && pairs[i].0 == k
    decreases |pairs|
  {
    var init := pairs[..|pairs| - 1];
    if pairs[|pairs| - 1].0 != k {
      PairsToMapKeys(init, k);
      var i :| 0 <= i < |init| && init[i].0 == k;
      assert pairs[i].0 == k;
    }
  }

  lemma UnpackNext(pairs: seq<(Bytes, Bytes)>, n: nat)
    requires n < |pairs|
    ensures UnpackPairs(Flat(pairs), n + 1) ==
            match UnpackPairs(Flat(pairs), n)
            case Ok(fields) => AddPair(fields, pairs[n].0, pairs[n].1)
            case Err(e) => Err(e)
  {
    assert Flat(pairs)[2 * n] == pairs[n].0 && Flat(pairs)[2 * n + 1] == pairs[n].1;
  }

  lemma PairsToMapNext(pairs: seq<(Bytes, Bytes)>, n: nat)
    requires n < |pairs| && forall i, j :: 0 <= i < j < |pairs| ==> pairs[i].0 != pairs[j].0
    ensures pairs[n].0 !in PairsToMap(pairs[..n])
    ensures PairsToMap(pairs[..n + 1]) == PairsToMap(pairs[..n])[pairs[n].0 := pairs[n].1]
  {
    var before := pairs[..n];
    assert pairs[..n + 1][..n] == before;
    if pairs[n].0 in PairsToMap(before) {
      PairsToMapKeys(before, pairs[n].0);
    }
  }

  lemma {:induction false} UnpackPrefix(pairs: seq<(Bytes, Bytes)>, n: nat)
    requires n <= |pairs| && forall i, j :: 0 <= i < j < |pairs| ==> pairs[i].0 != pairs[j].0
    ensures UnpackPairs(Flat(pairs), n) == DecodeHash(PairsToMap(pairs[..n]))
  {
    if n == 0 {
      assert DecodeHash(map[]).value == map[];
    } else {
      UnpackPrefix(pairs, n - 1);
      UnpackNext(pairs, n - 1);
      PairsToMapNext(pairs, n - 1);
      DecodeInsert(PairsToMap(pairs[..n - 1]), pairs[n - 1].0, pairs[n - 1].1);
    }
  }

  lemma {:induction false} UnpackAll(pairs: seq<(Bytes, Bytes)>)
    requires forall i, j :: 0 <= i < j < |pairs| ==> pairs[i].0 != pairs[j].0
    ensures UnpackReply(Flat(pairs)) == DecodeHash(PairsToMap(pairs))
  {
    UnpackPrefix(pairs, |pairs|);
    assert pairs[..|pairs|] == pairs;
  }

  /** Order independence: whatever order HGETALL lists the hash in, unpacking gives its meaning. */
  lemma UnpackListing(pairs: seq<(Bytes, Bytes)>, h: map<Bytes, Bytes>)
    requires IsListing(pairs, h)
    ensures UnpackReply(Flat(pairs)) == DecodeHash(h)
  {
    UnpackAll(pairs);
    ListingToMap(pairs, h);
  }

  ghost predicate Acceptable(pairs: seq<(Bytes, Bytes)>, n: nat)
    requires n <= |pairs|
  {
    && (forall i, j :: 0 <= i < j < n && pairs[i].0 == pairs[j].0 ==> pairs[i].0 == ACK_FIELD)
    && (forall i :: 0 <= i < n && pairs[i].0 != ACK_FIELD ==> DeserializeField(pairs[i].1).Ok?)
  }

  /** The names that the first `n` pairs add. */
  ghost predicate AddsNames(fields: Fields, pairs: seq<(Bytes, Bytes)>, n: nat)
    requires n <= |pairs|
  {
    forall k :: k in fields <==> k != ACK_FIELD && exists i :: 0 <= i < n && pairs[i].0 == k
  }

  lemma {:induction false} AcceptableNext(pairs: seq<(Bytes, Bytes)>, n: nat)
    requires n < |pairs| && Acceptable(pairs, n)
    ensures Acceptable(pairs, n + 1) <==>
            pairs[n].0 == ACK_FIELD || ((forall i :: 0 <= i < n ==> pairs[i].0 != pairs[n].0) && DeserializeField(pairs[n].1).Ok?)
  {
  }

  lemma {:induction false} AddsNamesNext(fields: Fields, f: Field, pairs: seq<(Bytes, Bytes)>, n: nat)
    requires n < |pairs| && AddsNames(fields, pairs, n)
    ensures AddsNames(if pairs[n].0 == ACK_FIELD then fields else fields[pairs[n].0 := f], pairs, n + 1)
  {
    var more := if pairs[n].0 == ACK_FIELD then fields else fields[pairs[n].0 := f];
    forall k ensures k in more <==> k != ACK_FIELD && exists i :: 0 <= i < n + 1 && pairs[i].0 == k {
      if k != ACK_FIELD && k == pairs[n].0 {
        assert pairs[n].0 == k;
      }
      if i :| 0 <= i < n && pairs[i].0 == k {
        assert 0 <= i < n + 1 && pairs[i].0 == k;
      }
    }
  }

  /** One pair more. */
  lemma {:induction false} AddPairNext(fields: Fields, pairs: seq<(Bytes, Bytes)>, n: nat)
    requires n < |pairs| && Acceptable(pairs, n) && AddsNames(fields, pairs, n)
    ensures AddPair(fields, pairs[n].0, pairs[n].1).Ok? <==> Acceptable(pairs, n + 1)
    ensures AddPair(fields, pairs[n].0, pairs[n].1).Ok? ==> AddsNames(AddPair(fields, pairs[n].0, pairs[n].1).value, pairs, n + 1)
    ensures AddPair(fields, pairs[n].0, pairs[n].1).Err? ==> AddPair(fields, pairs[n].0, pairs[n].1).error == RuntimeError
  {
    DeserializeErrors(pairs[n].1);
    AcceptableNext(pairs, n);
    assert pairs[n].0 != ACK_FIELD ==> (pairs[n].0 in fields <==> exists j :: 0 <= j < n && pairs[j].0 == pairs[n].0);
    var r := DeserializeField(pairs[n].1);
    AddsNamesNext(fields, if r.Ok? then r.value else StringField([]), pairs, n);
  }

  lemma {:induction false} AcceptablePrefix(pairs: seq<(Bytes, Bytes)>, i: nat, n: nat)
    requires i <= n <= |pairs| && !Acceptable(pairs, i)
    ensures !Acceptable(pairs, n)
  {
  }

  /** What unpacking the first `n` pairs may come to. */
  ghost predicate Unpacked(r: Result<Fields>, pairs: seq<(Bytes, Bytes)>, n: nat)
    requires n <= |pairs|
  {
    match r
    case Ok(fields) => Acceptable(pairs, n) && AddsNames(fields, pairs, n)
    case Err(e) => !Acceptable(pairs, n) && e == RuntimeError
  }

  lemma UnpackedNone(pairs: seq<(Bytes, Bytes)>)
    ensures Unpacked(UnpackPairs(Flat(pairs), 0), pairs, 0)
  {
  }

  lemma {:induction false} UnpackedNext(r: Result<Fields>, more: Result<Fields>, pairs: seq<(Bytes, Bytes)>, n: nat)
    requires n < |pairs| && Unpacked(r, pairs, n)
    requires more == match r case Ok(fields) => AddPair(fields, pairs[n].0, pairs[n].1) case Err(e) => Err(e)
    ensures Unpacked(more, pairs, n + 1)
  {
    match r
    case Ok(fields) => AddPairNext(fields, pairs, n);
    case Err(_) => AcceptablePrefix(pairs, n, n + 1);
  }

  lemma {:induction false} UnpackedOneMore(pairs: seq<(Bytes, Bytes)>, n: nat)
    requires n < |pairs| && Unpacked(UnpackPairs(Flat(pairs), n), pairs, n)
    ensures Unpacked(UnpackPairs(Flat(pairs), n + 1), pairs, n + 1)
  {
    UnpackNext(pairs, n);
    UnpackedNext(UnpackPairs(Flat(pairs), n), UnpackPairs(Flat(pairs), n + 1), pairs, n);
  }

  lemma {:induction false} UnpackFirst(pairs: seq<(Bytes, Bytes)>, n: nat)
    requires n <= |pairs|
    ensures Unpacked(UnpackPairs(Flat(pairs), n), pairs, n)
  {
    if n == 0 {
      UnpackedNone(pairs);
    } else {
      UnpackFirst(pairs, n - 1);
      UnpackedOneMore(pairs, n - 1);
    }
  }

  /** A reply of pairs is accepted exactly when no field but the acknowledgement is named twice
      and every field deserializes. */
  lemma {:induction false} UnpackAcceptsIff(pairs: seq<(Bytes, Bytes)>)
    ensures UnpackReply(Flat(pairs)).Ok? <==>
            && (forall i, j :: 0 <= i < j < |pairs| && pairs[i].0 == pairs[j].0 ==> pairs[i].0 == ACK_FIELD)
            && (forall i :: 0 <= i < |pairs| && pairs[i].0 != ACK_FIELD ==> DeserializeField(pairs[i].1).Ok?)
    ensures UnpackReply(Flat(pairs)).Err? ==> UnpackReply(Flat(pairs)).error == RuntimeError
  {
    UnpackFirst(pairs, |pairs|);
  }

  /** A reply of an odd length is refused. */
  lemma OddReplyRefused(reply: seq<Bytes>)
    requires |reply| % 2 == 1
    ensures UnpackReply(reply) == Err(RuntimeError)
  {
  }

  /** Decoding a hash fails in one way only. */
  lemma DecodeErrors(h: map<Bytes, Bytes>)
    ensures DecodeHash(h).Ok? <==> forall k :: k in h && k != ACK_FIELD ==> DeserializeField(h[k]).Ok?
    ensures DecodeHash(h).Err? ==> DecodeHash(h).error == RuntimeError
  {
  }

  // ---------------------------------------------------------------------------------------
  // DataSets
  // ---------------------------------------------------------------------------------------

  /** `DataSet::get_tensor_names`. */
  function TensorNames(fields: Fields): Result<seq<Bytes>> {
    if TENSOR_NAMES !in fields then Ok([])
    else match fields[TENSOR_NAMES]
      case StringField(strings) => Ok(strings)
      case ScalarField(_, _) => Err(RuntimeError)
  }

  /** A tensor may not be called "meta": its key would be the key of the metadata. */
  const META_NAME := Ascii("meta")

  /** The name that the code reserves. */
  const RESERVED_NAME := Ascii(".meta")

  /** `TensorBase::_check_inputs`, for data that is there: what makes the constructor throw is
      an empty or the reserved name, and an empty or zero shape. */
  predicate Constructible(name: Bytes, tensor: Tensor) {
    && name != [] && name != RESERVED_NAME
    && tensor.dims != []
    && forall i :: 0 <= i < |tensor.dims| ==> tensor.dims[i] > 0
  }

  /** What the DataSet interface can hold: every tensor was constructed under its name, and the
      fields name the tensors, each once. */
  ghost predicate Consistent(ds: DataSet) {
    && ValidFields(ds.fields)
    && META_NAME !in ds.tensors
    && (forall t :: t in ds.tensors ==> Constructible(t, ds.tensors[t]))
    && TensorNames(ds.fields).Ok?
    && Distinct(TensorNames(ds.fields).value)
    && (forall t :: t in TensorNames(ds.fields).value <==> t in ds.tensors)
  }

  /** A consistent dataset with something to store. */
  ghost predicate WellFormed(ds: DataSet) {
    ds.fields != map[] && Consistent(ds)
  }
}
