/** Building a DataSet in memory (`src/cpp/dataset.cpp`, `src/cpp/metadata.cpp`,
    `src/cpp/tensorpack.cpp`): which calls keep the name list in step with the tensors, so that
    the dataset can be placed and read back. */
module DatasetBuilding {
  import opened Basics
  import opened MetadataBuffer
  import opened Metadata
  import opened Store
  import opened DatasetCommands
  import opened DatasetReads

  datatype Op =
    | AddTensor(tensor: Bytes, value: Tensor)
    | AddMetaString(field: Bytes, text: Bytes)
    | AddMetaScalar(field: Bytes, tag: int, word: Bytes)
    | ClearField(field: Bytes)

  /** How a call ends and what it leaves in the dataset, also when it throws. */
  datatype Built = Built(result: Result<()>, dataset: DataSet)

  /** `MetaData::add_string`: a new field if there is none, an error on a scalar field. */
  function AddString(ds: DataSet, field: Bytes, text: Bytes): Built {
    var f := if field in ds.fields then ds.fields[field] else StringField([]);
    match f
    case ScalarField(_, _) => Built(Err(RuntimeError), ds)
    case StringField(strings) => Built(Ok(()), ds.(fields := ds.fields[field := StringField(strings + [text])]))
  }

  predicate IsTag(tag: int) {
    IsScalarTag(tag) || tag == STRING_TAG as int
  }

  function EmptyField(tag: int): Field
    requires IsTag(tag)
  {
    if tag == STRING_TAG as int then StringField([]) else ScalarField(tag as byte, [])
  }

  predicate HasTag(f: Field, tag: int) {
    match f
    case ScalarField(t, _) => t as int == tag
    case StringField(_) => tag == STRING_TAG as int
  }

  /** `MetaData::add_scalar`: the field is created before the type is checked, so that a call
      with the string type throws and leaves an empty string field behind. */
  function AddScalar(ds: DataSet, field: Bytes, tag: int, word: Bytes): Built {
    if field !in ds.fields && !IsTag(tag) then Built(Err(RuntimeError), ds)
    else
      var f := if field in ds.fields then ds.fields[field] else EmptyField(tag);
      var created := ds.(fields := ds.fields[field := f]);
      if f.StringField? || !HasTag(f, tag) then Built(Err(RuntimeError), created)
      else Built(Ok(()), ds.(fields := ds.fields[field := f.(words := f.words + [word])]))
  }

  /** `DataSet::add_tensor`: the tensor is constructed and stored first, its name listed
      afterwards. */
  function AddNamed(ds: DataSet, name: Bytes, value: Tensor): Built {
    if name in ds.tensors || !Constructible(name, value) then Built(Err(RuntimeError), ds)
    else AddString(ds.(tensors := ds.tensors[name := value]), TENSOR_NAMES, name)
  }

  function Perform(ds: DataSet, op: Op): Built {
    match op
    case AddTensor(name, value) => AddNamed(ds, name, value)
    case AddMetaString(field, text) => AddString(ds, field, text)
    case AddMetaScalar(field, tag, word) => AddScalar(ds, field, tag, word)
    case ClearField(field) => Built(Ok(()), ds.(fields := ds.fields - {field}))
  }

  /** The source's `DataSet` object. */
  class DataSetObject {
    const name: Bytes
    var fields: Fields
    var tensors: map<Bytes, Tensor>

    function View(): DataSet
      reads this
    {
      DataSet(name, fields, tensors)
    }

    constructor (name: Bytes)
      ensures View() == DataSet(name, map[], map[])
    {
      this.name := name;
      fields, tensors := map[], map[];
    }

    method Add(tensorName: Bytes, value: Tensor) returns (r: Result<()>)
      modifies this`fields, this`tensors
      ensures Built(r, View()) == Perform(old(View()), AddTensor(tensorName, value))
    {
      if tensorName in tensors {
        return Err(RuntimeError);
      }
      var valid := CheckInputs(tensorName, value);
      if !valid {
        return Err(RuntimeError);
      }
      tensors := tensors[tensorName := value];
      r := AddMeta(TENSOR_NAMES, tensorName);
    }

    /** `TensorBase::_check_inputs`: the two name checks, then a loop over the dimensions. */
    static method CheckInputs(name: Bytes, value: Tensor) returns (valid: bool)
      ensures valid <==> Constructible(name, value)
    {
      if |name| == 0 {
        return false;
      }
      if name == RESERVED_NAME {
        return false;
      }
      if |value.dims| == 0 {
        return false;
      }
      for i := 0 to |value.dims|
        invariant forall k :: 0 <= k < i ==> value.dims[k] > 0
      {
        if value.dims[i] <= 0 {
          return false;
        }
      }
      return true;
    }

    method AddMeta(field: Bytes, text: Bytes) returns (r: Result<()>)
      modifies this`fields
      ensures Built(r, View()) == AddString(old(View()), field, text)
    {
      if field !in fields {
        fields := fields[field := StringField([])];
      }
      var f := fields[field];
      if !f.StringField? {
        return Err(RuntimeError);
      }
      fields := fields[field := StringField(f.strings + [text])];
      return Ok(());
    }

    method AddMetaWord(field: Bytes, tag: int, word: Bytes) returns (r: Result<()>)
      modifies this`fields
      ensures Built(r, View()) == Perform(old(View()), AddMetaScalar(field, tag, word))
    {
      if field !in fields {
        if !IsTag(tag) {
          return Err(RuntimeError);
        }
        fields := fields[field := EmptyField(tag)];
      }
      var f := fields[field];
      assert fields == old(fields)[field := f];
      if !HasTag(f, tag) || f.StringField? {
        return Err(RuntimeError);
      }
      fields := fields[field := f.(words := f.words + [word])];
      return Ok(());
    }

    method Clear(field: Bytes)
      modifies this`fields
      ensures View() == Perform(old(View()), ClearField(field)).dataset
    {
      if field in fields {
        fields := fields - {field};
      }
    }
  }

  // ---------------------------------------------------------------------------------------
  // The invariant
  // ---------------------------------------------------------------------------------------

  /** The caller's side: texts fit `size_t`, a word has the width of its type. */
  predicate Sized(op: Op) {
    match op
    case AddTensor(name, _) => |name| < SIZE_LIMIT
    case AddMetaString(_, text) => |text| < SIZE_LIMIT
    case AddMetaScalar(_, tag, word) => IsScalarTag(tag) ==> |word| == ScalarWidth(tag)
    case ClearField(_) => true
  }

  /** The calls that put a dataset out of step: those that reach the two internal fields, and a
      tensor whose key would be the metadata key and that the constructor lets through. */
  predicate Breaks(ds: DataSet, op: Op) {
    match op
    case AddTensor(name, value) => name == META_NAME && Constructible(name, value)
    case AddMetaString(field, _) => field == TENSOR_NAMES || field == ACK_FIELD
    case AddMetaScalar(field, tag, _) =>
      (field == ACK_FIELD && IsTag(tag)) || (field == TENSOR_NAMES && TENSOR_NAMES !in ds.fields && IsScalarTag(tag))
    case ClearField(field) => field == TENSOR_NAMES && ds.tensors != map[]
  }

  lemma InternalFieldsDiffer()
    ensures TENSOR_NAMES != ACK_FIELD && META_NAME != []
  {
    assert |TENSOR_NAMES| != |ACK_FIELD|;
    assert |META_NAME| == 4;
  }

  lemma ListedOneMore(names: seq<Bytes>, pack: map<Bytes, Tensor>, name: Bytes, value: Tensor)
    requires Distinct(names) && (forall t :: t in names <==> t in pack) && name !in pack
    ensures Distinct(names + [name])
    ensures forall t :: t in names + [name] <==> t in pack[name := value]
  {
    var more := names + [name];
    forall i, j | 0 <= i < j < |more| ensures more[i] != more[j] {
      assert names[i] in names;
    }
  }

  /** Appending to the name list without adding a tensor cannot be right. */
  lemma ListedTooMany(names: seq<Bytes>, pack: map<Bytes, Tensor>, text: Bytes)
    requires forall t :: t in names <==> t in pack
    ensures !(Distinct(names + [text]) && forall t :: t in names + [text] <==> t in pack)
  {
    var more := names + [text];
    assert text in more;
    if text in names {
      var i :| 0 <= i < |names| && names[i] == text;
      assert more[i] == more[|names|];
    }
  }

  lemma AddTensorKeepsIff(ds: DataSet, name: Bytes, value: Tensor)
    requires Consistent(ds) && |name| < SIZE_LIMIT
    ensures Consistent(AddNamed(ds, name, value).dataset) <==> !Breaks(ds, AddTensor(name, value))
  {
    InternalFieldsDiffer();
    if name !in ds.tensors && Constructible(name, value) {
      var names := TensorNames(ds.fields).value;
      ListedOneMore(names, ds.tensors, name, value);
      var after := AddNamed(ds, name, value).dataset;
      assert after.fields == ds.fields[TENSOR_NAMES := StringField(names + [name])];
      assert ValidFields(after.fields);
    }
  }

  lemma AddStringKeepsIff(ds: DataSet, field: Bytes, text: Bytes)
    requires Consistent(ds) && |text| < SIZE_LIMIT
    ensures Consistent(AddString(ds, field, text).dataset) <==> field != TENSOR_NAMES && field != ACK_FIELD
  {
    InternalFieldsDiffer();
    var after := AddString(ds, field, text).dataset;
    if field == ACK_FIELD {
      assert ACK_FIELD in after.fields;
    } else if field == TENSOR_NAMES {
      var names := TensorNames(ds.fields).value;
      assert TensorNames(after.fields) == Ok(names + [text]);
      ListedTooMany(names, ds.tensors, text);
    } else {
      assert TensorNames(after.fields) == TensorNames(ds.fields);
    }
  }

  lemma AddScalarKeepsIff(ds: DataSet, field: Bytes, tag: int, word: Bytes)
    requires Consistent(ds) && (IsScalarTag(tag) ==> |word| == ScalarWidth(tag))
    ensures Consistent(AddScalar(ds, field, tag, word).dataset) <==> !Breaks(ds, AddMetaScalar(field, tag, word))
  {
    InternalFieldsDiffer();
    var after := AddScalar(ds, field, tag, word).dataset;
    if field in ds.fields {
      assert ds.fields[field := ds.fields[field]] == ds.fields;
    }
    if field == TENSOR_NAMES {
      assert TensorNames(ds.fields).Ok?;
    } else {
      assert TensorNames(after.fields) == TensorNames(ds.fields);
    }
    assert field != ACK_FIELD ==> ValidFields(after.fields);
  }

  lemma ClearKeepsIff(ds: DataSet, field: Bytes)
    requires Consistent(ds)
    ensures Consistent(ds.(fields := ds.fields - {field})) <==> !(field == TENSOR_NAMES && ds.tensors != map[])
  {
    var after := ds.(fields := ds.fields - {field});
    if field == TENSOR_NAMES {
      assert TensorNames(after.fields) == Ok([]);
      if ds.tensors != map[] {
        var t :| t in ds.tensors;
      } else {
        assert forall t :: t !in ds.tensors;
      }
    } else {
      assert TensorNames(after.fields) == TensorNames(ds.fields);
    }
  }

  /** Every call, failing ones included, keeps a dataset consistent exactly when it is not one
      of the breaking calls. */
  lemma OpKeepsIff(ds: DataSet, op: Op)
    requires Consistent(ds) && Sized(op)
    ensures Consistent(Perform(ds, op).dataset) <==> !Breaks(ds, op)
  {
    match op
    case AddTensor(name, value) => AddTensorKeepsIff(ds, name, value);
    case AddMetaString(field, text) => AddStringKeepsIff(ds, field, text);
    case AddMetaScalar(field, tag, word) => AddScalarKeepsIff(ds, field, tag, word);
    case ClearField(field) => ClearKeepsIff(ds, field);
  }

  function PerformAll(name: Bytes, ops: seq<Op>): DataSet {
    if ops == [] then DataSet(name, map[], map[])
    else Perform(PerformAll(name, ops[..|ops| - 1]), ops[|ops| - 1]).dataset
  }

  /** No call names an internal field or the reserved tensor name. */
  ghost predicate Avoids(ops: seq<Op>) {
    forall i :: 0 <= i < |ops| ==>
      match ops[i]
      case AddTensor(name, _) => name != META_NAME
      case AddMetaString(field, _) => field != TENSOR_NAMES && field != ACK_FIELD
      case AddMetaScalar(field, _, _) => field != TENSOR_NAMES && field != ACK_FIELD
      case ClearField(field) => field != TENSOR_NAMES
  }

  /** Every run of calls that leaves the reserved names alone builds a consistent dataset. */
  lemma {:induction false} RunKeepsConsistent(name: Bytes, ops: seq<Op>)
    requires Avoids(ops) && forall i :: 0 <= i < |ops| ==> Sized(ops[i])
    ensures Consistent(PerformAll(name, ops))
    decreases |ops|
  {
    if ops == [] {
      assert TensorNames(map[]) == Ok([]);
    } else {
      var init := ops[..|ops| - 1];
      RunKeepsConsistent(name, init);
      OpKeepsIff(PerformAll(name, init), ops[|ops| - 1]);
    }
  }

  // ---------------------------------------------------------------------------------------
  // What a run of calls has built, told from the calls alone
  // ---------------------------------------------------------------------------------------

  /** The calls after the last that cleared the field. */
  function SinceClear(ops: seq<Op>, field: Bytes): seq<Op> {
    if ops == [] || ops[|ops| - 1] == ClearField(field) then []
    else SinceClear(ops[..|ops| - 1], field) + [ops[|ops| - 1]]
  }

  /** A call for the field that names one of the field types. */
  predicate Aims(op: Op, field: Bytes) {
    match op
    case AddMetaString(f, _) => f == field
    case AddMetaScalar(f, tag, _) => f == field && IsTag(tag)
    case _ => false
  }

  function Aimed(ops: seq<Op>, field: Bytes): seq<Op> {
    if ops == [] then []
    else Aimed(ops[..|ops| - 1], field) + (if Aims(ops[|ops| - 1], field) then [ops[|ops| - 1]] else [])
  }

  /** The type that a call asks for. */
  function Kind(op: Op): int {
    match op
    case AddMetaScalar(_, tag, _) => tag
    case _ => STRING_TAG as int
  }

  /** The values that the calls of one type bring, in order. A scalar call with the string type
      brings none. */
  function Values(ops: seq<Op>, kind: int): seq<Bytes> {
    if ops == [] then []
    else
      var before := Values(ops[..|ops| - 1], kind);
      match ops[|ops| - 1]
      case AddMetaString(_, text) => if kind == 7 then before + [text] else before
      case AddMetaScalar(_, tag, word) => if kind == tag && 1 <= tag <= 6 then before + [word] else before
      case _ => before
  }

  /** The field that calls for it make: the first decides the type, and the calls of that type
      bring the values. */
  function FieldOf(calls: seq<Op>): Option<Field> {
    if calls == [] then None
    else if 1 <= Kind(calls[0]) <= 6 then Some(ScalarField(Kind(calls[0]) as byte, Values(calls, Kind(calls[0]))))
    else Some(StringField(Values(calls, 7)))
  }

  /** The field, told from the calls. */
  function Told(ops: seq<Op>, field: Bytes): Option<Field> {
    FieldOf(Aimed(SinceClear(ops, field), field))
  }

  function Lookup(fields: Fields, field: Bytes): Option<Field> {
    if field in fields then Some(fields[field]) else None
  }

  lemma ToldNext(ops: seq<Op>, op: Op, field: Bytes)
    ensures Told(ops + [op], field) ==
            if op == ClearField(field) then None
            else if Aims(op, field) then FieldOf(Aimed(SinceClear(ops, field), field) + [op])
            else Told(ops, field)
  {
    var more := ops + [op];
    assert more[..|more| - 1] == ops;
    if op != ClearField(field) {
      var calls := SinceClear(ops, field);
      assert (calls + [op])[..|calls + [op]| - 1] == calls;
      assert Aimed(calls, field) + [] == Aimed(calls, field);
    }
  }

  /** One more call for a field. */
  lemma FieldOfNext(calls: seq<Op>, op: Op)
    ensures FieldOf(calls + [op]) ==
            if calls == [] then FieldOf([op])
            else match FieldOf(calls).value
              case ScalarField(tag, words) =>
                Some(ScalarField(tag, if op.AddMetaScalar? && op.tag == tag as int then words + [op.word] else words))
              case StringField(strings) =>
                Some(StringField(if op.AddMetaString? then strings + [op.text] else strings))
  {
    if calls == [] {
      assert [] + [op] == [op];
    } else {
      assert (calls + [op])[..|calls + [op]| - 1] == calls;
    }
  }

  lemma FieldOfOne(op: Op)
    ensures Values([op], 7) == (if op.AddMetaString? then [op.text] else [])
    ensures forall kind :: 1 <= kind <= 6 ==> Values([op], kind) == if op.AddMetaScalar? && op.tag == kind then [op.word] else []
  {
    assert [op][..0] == [];
  }

  /** A string call on the field it names. */
  lemma {:induction false} StringCall(ds: DataSet, field: Bytes, text: Bytes, calls: seq<Op>)
    requires Lookup(ds.fields, field) == FieldOf(calls)
    ensures Lookup(AddString(ds, field, text).dataset.fields, field) == FieldOf(calls + [AddMetaString(field, text)])
  {
    FieldOfNext(calls, AddMetaString(field, text));
    FieldOfOne(AddMetaString(field, text));
  }

  /** A scalar call, with one of the field types, on the field it names. */
  lemma {:induction false} ScalarCall(ds: DataSet, field: Bytes, tag: int, word: Bytes, calls: seq<Op>)
    requires Lookup(ds.fields, field) == FieldOf(calls) && IsTag(tag)
    ensures Lookup(AddScalar(ds, field, tag, word).dataset.fields, field) == FieldOf(calls + [AddMetaScalar(field, tag, word)])
  {
    FieldOfNext(calls, AddMetaScalar(field, tag, word));
    FieldOfOne(AddMetaScalar(field, tag, word));
  }

  /** Calls for other fields. */
  lemma {:induction false} OtherCall(ds: DataSet, op: Op, field: Bytes, calls: seq<Op>)
    requires Lookup(ds.fields, field) == FieldOf(calls)
    requires field != TENSOR_NAMES && op != ClearField(field) && !Aims(op, field)
    ensures Lookup(Perform(ds, op).dataset.fields, field) == Lookup(ds.fields, field)
  {
  }

  /** What one call does to one field other than the name list. */
  lemma {:induction false} OneCall(ds: DataSet, op: Op, field: Bytes, calls: seq<Op>)
    requires field != TENSOR_NAMES && Lookup(ds.fields, field) == FieldOf(calls)
    ensures Lookup(Perform(ds, op).dataset.fields, field) ==
            if op == ClearField(field) then None
            else if Aims(op, field) then FieldOf(calls + [op])
            else Lookup(ds.fields, field)
  {
    if op == ClearField(field) {
    } else if !Aims(op, field) {
      OtherCall(ds, op, field, calls);
    } else {
      match op
      case AddMetaString(_, text) =>
        assert op == AddMetaString(field, text);
        StringCall(ds, field, text, calls);
      case AddMetaScalar(_, tag, word) =>
        assert op == AddMetaScalar(field, tag, word);
        ScalarCall(ds, field, tag, word, calls);
    }
  }

  /** Every run: each field holds the values of the calls of its type since it was last cleared,
      in call order. */
  lemma {:induction false} FieldsAreTold(name: Bytes, ops: seq<Op>, field: Bytes)
    requires field != TENSOR_NAMES
    ensures Lookup(PerformAll(name, ops).fields, field) == Told(ops, field)
    decreases |ops|
  {
    if ops != [] {
      var init, op := ops[..|ops| - 1], ops[|ops| - 1];
      assert ops == init + [op];
      FieldsAreTold(name, init, field);
      ToldNext(init, op, field);
      OneCall(PerformAll(name, init), op, field, Aimed(SinceClear(init, field), field));
    }
  }

  /** The names of the tensors added, in call order: a repeated name and a tensor that cannot be
      constructed are refused. */
  function AddedNames(ops: seq<Op>): seq<Bytes> {
    if ops == [] then []
    else
      var before := AddedNames(ops[..|ops| - 1]);
      match ops[|ops| - 1]
      case AddTensor(t, v) => if Constructible(t, v) && t !in before then before + [t] else before
      case _ => before
  }

  /** Call `i` is the first that could construct tensor `t`, with value `v`. */
  ghost predicate FirstAdds(ops: seq<Op>, i: nat, t: Bytes, v: Tensor) {
    && i < |ops| && ops[i] == AddTensor(t, v) && Constructible(t, v)
    && forall j :: 0 <= j < i && ops[j].AddTensor? && ops[j].tensor == t ==> !Constructible(t, ops[j].value)
  }

  lemma {:induction false} AddedFirst(ops: seq<Op>, t: Bytes)
    ensures t in AddedNames(ops) <==> exists i :: 0 <= i < |ops| && ops[i].AddTensor? && ops[i].tensor == t && Constructible(t, ops[i].value)
    decreases |ops|
  {
    if ops != [] {
      var n := |ops| - 1;
      AddedFirst(ops[..n], t);
      if i :| 0 <= i < |ops| && ops[i].AddTensor? && ops[i].tensor == t && Constructible(t, ops[i].value) {
        if i < n { assert ops[..n][i] == ops[i]; }
      }
      if i :| 0 <= i < n && ops[..n][i].AddTensor? && ops[..n][i].tensor == t && Constructible(t, ops[..n][i].value) {
        assert ops[i] == ops[..n][i];
      }
    }
  }

  lemma {:induction false} OneAdd(ds: DataSet, op: Op)
    ensures Perform(ds, op).dataset.tensors ==
            if op.AddTensor? && op.tensor !in ds.tensors && Constructible(op.tensor, op.value) then ds.tensors[op.tensor := op.value]
            else ds.tensors
  {
  }

  /** Exactly when `add_tensor` succeeds, on any dataset, and what it adds to the list. A call that
      fails because the list is no string field has stored the tensor all the same. */
  lemma AddTensorSucceedsIff(ds: DataSet, name: Bytes, value: Tensor)
    ensures var built := AddNamed(ds, name, value);
            var allowed := && name !in ds.tensors && name != [] && name != Ascii(".meta")
                           && |value.dims| >= 1 && forall i :: 0 <= i < |value.dims| ==> value.dims[i] >= 1;
            && (built.result.Ok? <==> allowed && TensorNames(ds.fields).Ok?)
            && (built.result.Ok? ==> TensorNames(built.dataset.fields) == Ok(TensorNames(ds.fields).value + [name]))
            && (built.result.Err? ==> built.dataset == if allowed then ds.(tensors := ds.tensors[name := value]) else ds)
  {
    assert [] + [name] == [name];
  }

  lemma FirstAddsMore(ops: seq<Op>, n: nat, i: nat, t: Bytes, v: Tensor)
    requires n <= |ops| && FirstAdds(ops[..n], i, t, v)
    ensures FirstAdds(ops, i, t, v)
  {
    assert forall j :: 0 <= j <= i ==> ops[..n][j] == ops[j];
  }

  lemma LastAdds(ops: seq<Op>, t: Bytes)
    requires ops != [] && ops[|ops| - 1].AddTensor? && ops[|ops| - 1].tensor == t && Constructible(t, ops[|ops| - 1].value)
    requires t !in AddedNames(ops[..|ops| - 1])
    ensures FirstAdds(ops, |ops| - 1, t, ops[|ops| - 1].value)
  {
    var n := |ops| - 1;
    AddedFirst(ops[..n], t);
    assert forall j :: 0 <= j < n ==> ops[..n][j] == ops[j];
  }

  /** Every run: the tensors are those added, each with the value of the first call that could
      construct it. */
  lemma {:induction false} TensorsAreTold(name: Bytes, ops: seq<Op>)
    ensures forall t :: t in PerformAll(name, ops).tensors <==> t in AddedNames(ops)
    ensures forall t :: t in PerformAll(name, ops).tensors ==> exists i :: FirstAdds(ops, i, t, PerformAll(name, ops).tensors[t])
    decreases |ops|
  {
    if ops != [] {
      var n := |ops| - 1;
      var before := PerformAll(name, ops[..n]);
      TensorsAreTold(name, ops[..n]);
      OneAdd(before, ops[n]);
      forall t | t in PerformAll(name, ops).tensors ensures exists i :: FirstAdds(ops, i, t, PerformAll(name, ops).tensors[t]) {
        if t in before.tensors {
          var i :| FirstAdds(ops[..n], i, t, before.tensors[t]);
          FirstAddsMore(ops, n, i, t, before.tensors[t]);
        } else {
          LastAdds(ops, t);
        }
      }
    }
  }

  /** Runs that leave the internal fields alone list the tensors in the order they were added. */
  lemma {:induction false} NamesAreTold(name: Bytes, ops: seq<Op>)
    requires Avoids(ops)
    ensures TensorNames(PerformAll(name, ops).fields) == Ok(AddedNames(ops))
    ensures AddedNames(ops) != [] ==> Lookup(PerformAll(name, ops).fields, Ascii(".tensor_names")) == Some(StringField(AddedNames(ops)))
    decreases |ops|
  {
    if ops == [] {
      assert TensorNames(map[]) == Ok([]);
    } else {
      var n := |ops| - 1;
      NamesAreTold(name, ops[..n]);
      TensorsAreTold(name, ops[..n]);
    }
  }

  /** Which call succeeds, told from the calls before it. */
  lemma CallSucceedsIff(name: Bytes, ops: seq<Op>, op: Op)
    requires Avoids(ops + [op])
    ensures Perform(PerformAll(name, ops), op).result.Ok? <==>
            match op
            case AddTensor(t, v) => Constructible(t, v) && t !in AddedNames(ops)
            case AddMetaString(field, _) => Told(ops, field).None? || Told(ops, field).value.StringField?
            case AddMetaScalar(field, tag, _) =>
              1 <= tag <= 6 && (Told(ops, field).None? || (Told(ops, field).value.ScalarField? && Told(ops, field).value.tag as int == tag))
            case ClearField(_) => true
    ensures Perform(PerformAll(name, ops), op).result.Err? ==> Perform(PerformAll(name, ops), op).result.error == RuntimeError
  {
    assert forall i :: 0 <= i < |ops| ==> (ops + [op])[i] == ops[i];
    assert (ops + [op])[|ops|] == op;
    assert Avoids(ops);
    NamesAreTold(name, ops);
    TensorsAreTold(name, ops);
    match op
    case AddMetaString(field, _) => FieldsAreTold(name, ops, field);
    case AddMetaScalar(field, _, _) => FieldsAreTold(name, ops, field);
    case _ =>
  }

  /** From the first call to the read: what such a run built, if anything, comes back from the
      store for every order of sending, told from the calls: the values of each field, the tensors
      and their order. */
  lemma BuiltPutGet(name: Bytes, ops: seq<Op>, s: Store, base: Bytes, pairs: Pairs, tensors: NamedTensors)
    requires Avoids(ops) && forall i :: 0 <= i < |ops| ==> Sized(ops[i])
    requires PerformAll(name, ops).fields != map[]
    requires Orders(PerformAll(name, ops), pairs, tensors)
    requires AllSettable(s, base, PerformAll(name, ops).tensors.Keys)
    ensures ReadDataset(Run(s, PutCommands(base, pairs, tensors)), base, name) == Ok(PerformAll(name, ops))
    ensures var ds := PerformAll(name, ops);
            && ds.name == name
            && (forall field :: field != TENSOR_NAMES ==> Lookup(ds.fields, field) == Told(ops, field))
            && TensorNames(ds.fields) == Ok(AddedNames(ops))
            && (forall t :: t in ds.tensors <==> t in AddedNames(ops))
            && (forall t :: t in ds.tensors ==> exists i :: FirstAdds(ops, i, t, ds.tensors[t]))
  {
    var ds := PerformAll(name, ops);
    RunKeepsConsistent(name, ops);
    NameStays(name, ops);
    PutStores(s, base, ds, pairs, tensors);
    StoredReads(Run(s, PutCommands(base, pairs, tensors)), base, ds);
    forall field | field != TENSOR_NAMES ensures Lookup(ds.fields, field) == Told(ops, field) {
      FieldsAreTold(name, ops, field);
    }
    NamesAreTold(name, ops);
    TensorsAreTold(name, ops);
  }

  lemma {:induction false} NameStays(name: Bytes, ops: seq<Op>)
    ensures PerformAll(name, ops).name == name
    decreases |ops|
  {
    if ops != [] { NameStays(name, ops[..|ops| - 1]); }
  }
}
