/**
  * Typed serialization of native/c/zjson.hpp: the trait instances for the basic types, vectors,
  * optionals, and structs described field by field.
  */
module JsonTyped {
  import opened Common

  const INT_MAX := 0x7FFF_FFFF
  const UINT_MAX := 0xFFFF_FFFF
  const LONG_MAX := 0x7FFF_FFFF_FFFF_FFFF
  const ULONG_MAX := 0xFFFF_FFFF_FFFF_FFFF

  datatype Json =
    | JNull
    | JBool(b: bool)
    | JInt(i: int)
    | JDouble(r: real)
    | JStr(s: seq<byte>)
    | JArr(elements: seq<Json>)
    | JObj(members: map<seq<byte>, Json>)

  datatype Ty =
    | TBool
    | TInt
    | TUInt
    | TLong
    | TULong
    | TStr
    | TAny
    | TVec(elem: Ty)
    | TOpt(elem: Ty)
    | TStruct(fields: Fields, denyUnknown: bool)

  datatype Fields = NoFields | Fields(head: Field, tail: Fields)

  /** `name` is the serialized name; `initial` is what a fresh struct holds in the field. */
  datatype Field = Field(name: seq<byte>, ty: Ty,
                         skipSerializing: bool, skipDeserializing: bool, skipIfNone: bool, flatten: bool,
                         default: Option<Data>, initial: Data)

  datatype Data =
    | DBool(b: bool)
    | DInt(i: int)
    | DStr(s: seq<byte>)
    | DAny(j: Json)
    | DVec(elements: seq<Data>)
    | DOpt(content: Option<Data>)
    | DStruct(members: seq<Data>)

  datatype Error = InvalidType | InvalidValue | InvalidData | UnknownField

  /** The values a C++ object of the type can hold. */
  predicate HasType(ty: Ty, d: Data) {
    match ty
    case TBool => d.DBool?
    case TInt => d.DInt? && -INT_MAX - 1 <= d.i <= INT_MAX
    case TUInt => d.DInt? && 0 <= d.i <= UINT_MAX
    case TLong => d.DInt? && -LONG_MAX - 1 <= d.i <= LONG_MAX
    case TULong => d.DInt? && 0 <= d.i <= ULONG_MAX
    case TStr => d.DStr?
    case TAny => d.DAny? && InRange(d.j)
    case TVec(elem) => d.DVec? && forall x :: x in d.elements ==> HasType(elem, x)
    case TOpt(elem) => d.DOpt? && (d.content.Some? ==> HasType(elem, d.content.value))
    case TStruct(fields, _) => d.DStruct? && HaveTypes(fields, d.members)
  }

  predicate HaveTypes(fs: Fields, ds: seq<Data>) {
    match fs
    case NoFields => ds == []
    case Fields(f, rest) => ds != [] && HasType(f.ty, ds[0]) && HaveTypes(rest, ds[1..])
  }

  /** Integers of a JSON value are 64-bit signed. */
  predicate InRange(j: Json) {
    match j
    case JInt(i) => -LONG_MAX - 1 <= i <= LONG_MAX
    case JArr(elements) => forall x :: x in elements ==> InRange(x)
    case JObj(members) => forall k :: k in members ==> InRange(members[k])
    case _ => true
  }

  // ---------- serialization ----------

  /** The binary64 double nearest to an integer from 2^63 to 2^64, ties to the even one. */
  function NearestDouble(v: nat): nat {
    var below := v / 2048 * 2048;
    var over := v - below;
    if over < 1024 || (over == 1024 && below / 2048 % 2 == 0) then below else below + 2048
  }

  function Serialize(ty: Ty, d: Data): Result<Json, Error>
    requires HasType(ty, d)
    decreases ty, 0
  {
    match ty
    case TBool => Ok(JBool(d.b))
    case TInt | TUInt | TLong => Ok(JInt(d.i))
    case TULong => Ok(if d.i <= LONG_MAX then JInt(d.i) else JDouble(NearestDouble(d.i) as real))
    case TStr => Ok(JStr(d.s))
    case TAny => Ok(d.j)
    case TVec(elem) =>
      var r := SerializeAll(elem, d.elements);
      if r.Ok? then Ok(JArr(r.value)) else Err(r.error)
    case TOpt(elem) => if d.content.Some? then Serialize(elem, d.content.value) else Ok(JNull)
    case TStruct(fields, _) =>
      var r := SerializeFields(fields, d.members, map[]);
      if r.Ok? then Ok(JObj(r.value)) else Err(r.error)
  }

  function SerializeAll(elem: Ty, ds: seq<Data>): Result<seq<Json>, Error>
    requires forall x :: x in ds ==> HasType(elem, x)
    decreases elem, 1, |ds|
  {
    if ds == [] then Ok([])
    else
      var first := Serialize(elem, ds[0]);
      if first.Err? then Err(first.error)
      else
        var rest := SerializeAll(elem, ds[1..]);
        if rest.Err? then rest else Ok([first.value] + rest.value)
  }

  function SerializeFields(fs: Fields, ds: seq<Data>, obj: map<seq<byte>, Json>): Result<map<seq<byte>, Json>, Error>
    requires HaveTypes(fs, ds)
    decreases fs, 0
  {
    match fs
    case NoFields => Ok(obj)
    case Fields(f, rest) =>
      var r := SerializeField(f, ds[0], obj);
      if r.Err? then r else SerializeFields(rest, ds[1..], r.value)
  }

  predicate Omitted(f: Field, d: Data) {
    f.skipSerializing || (f.skipIfNone && f.ty.TOpt? && d == DOpt(None))
  }

  function SerializeField(f: Field, d: Data, obj: map<seq<byte>, Json>): Result<map<seq<byte>, Json>, Error>
    requires HasType(f.ty, d)
    decreases f, 0
  {
    if f.skipSerializing then Ok(obj)
    else
      var r := Serialize(f.ty, d);
      if r.Err? then Err(r.error)
      else if f.flatten && r.value.JObj? then
        if r.value.members.Keys !! obj.Keys then Ok(obj + r.value.members) else Err(InvalidData)
      else if Omitted(f, d) then Ok(obj)
      else Ok(obj[f.name := r.value])
  }

  // ---------- deserialization ----------

  /** as_int64; casting a double of 2^63, which C++ leaves undefined, is taken for an error. */
  function AsInt64(j: Json): Result<int, Error> {
    match j
    case JInt(i) => Ok(i)
    case JDouble(r) =>
      if r != r.Floor as real then Err(InvalidValue)
      else if r.Floor > LONG_MAX || r.Floor < -LONG_MAX - 1 then Err(InvalidValue)
      else Ok(r.Floor)
    case _ => Err(InvalidType)
  }

  /** as_uint64; casting a double of 2^64, which C++ leaves undefined, is taken for an error. */
  function AsUint64(j: Json): Result<int, Error> {
    match j
    case JInt(i) => if i < 0 then Err(InvalidValue) else Ok(i)
    case JDouble(r) =>
      if r < 0.0 || r != r.Floor as real || r.Floor > ULONG_MAX then Err(InvalidValue)
      else Ok(r.Floor)
    case _ => Err(InvalidType)
  }

  function Within(r: Result<int, Error>, low: int, high: int): Result<Data, Error> {
    if r.Err? then Err(r.error)
    else if low <= r.value <= high then Ok(DInt(r.value))
    else Err(InvalidValue)
  }

  function Deserialize(ty: Ty, j: Json): Result<Data, Error>
    decreases ty, 0
  {
    match ty
    case TBool => if j.JBool? then Ok(DBool(j.b)) else Err(InvalidType)
    case TInt => Within(AsInt64(j), -INT_MAX - 1, INT_MAX)
    case TUInt => Within(AsUint64(j), 0, UINT_MAX)
    case TLong => Within(AsInt64(j), -LONG_MAX - 1, LONG_MAX)
    case TULong => Within(AsUint64(j), 0, ULONG_MAX)
    case TStr => if j.JStr? then Ok(DStr(j.s)) else Err(InvalidType)
    case TAny => Ok(DAny(j))
    case TVec(elem) =>
      if !j.JArr? then Err(InvalidType)
      else
        var r := DeserializeAll(elem, j.elements);
        if r.Ok? then Ok(DVec(r.value)) else Err(r.error)
    case TOpt(elem) =>
      if j.JNull? then Ok(DOpt(None))
      else
        var r := Deserialize(elem, j);
        if r.Ok? then Ok(DOpt(Some(r.value))) else r
    case TStruct(fields, deny) =>
      if !j.JObj? then Err(InvalidType)
      else
        var r := DeserializeFields(fields, j.members);
        if r.None? then Err(InvalidData)
        else if deny && !HasFlattened(fields) && !(j.members.Keys <= Names(fields)) then Err(UnknownField)
        else Ok(DStruct(r.value))
  }

  function DeserializeAll(elem: Ty, js: seq<Json>): Result<seq<Data>, Error>
    decreases elem, 1, |js|
  {
    if js == [] then Ok([])
    else
      var first := Deserialize(elem, js[0]);
      if first.Err? then Err(first.error)
      else
        var rest := DeserializeAll(elem, js[1..]);
        if rest.Err? then rest else Ok([first.value] + rest.value)
  }

  function DeserializeFields(fs: Fields, obj: map<seq<byte>, Json>): Option<seq<Data>>
    decreases fs, 0
  {
    match fs
    case NoFields => Some([])
    case Fields(f, rest) =>
      var first := DeserializeField(f, obj);
      if first.None? then None
      else
        var others := DeserializeFields(rest, obj);
        if others.None? then None else Some([first.value] + others.value)
  }

  function DeserializeField(f: Field, obj: map<seq<byte>, Json>): Option<Data>
    decreases f, 0
  {
    if f.skipDeserializing then Some(f.initial)
    else if f.flatten then
      var r := Deserialize(f.ty, JObj(obj));
      if r.Ok? then Some(r.value) else None
    else if f.name !in obj then
      if f.default.Some? then f.default
      else if f.ty.TOpt? then Some(DOpt(None))
      else None
    else
      var r := Deserialize(f.ty, obj[f.name]);
      if r.Ok? then Some(r.value) else None
  }

  predicate HasFlattened(fs: Fields) { fs.Fields? && (fs.head.flatten || HasFlattened(fs.tail)) }

  function Names(fs: Fields): set<seq<byte>> {
    match fs
    case NoFields => {}
    case Fields(f, rest) => (if f.flatten then {} else {f.name}) + Names(rest)
  }

  // ---------- descriptions of structs ----------

  /** The names a struct uses in its JSON object, those of flattened structs included. */
  function KeysOf(fs: Fields): set<seq<byte>> {
    match fs
    case NoFields => {}
    case Fields(f, rest) => FieldKeys(f) + KeysOf(rest)
  }

  function FieldKeys(f: Field): set<seq<byte>> {
    if f.flatten && f.ty.TStruct? then KeysOf(f.ty.fields) else {f.name}
  }

  /**
    * No two fields of a struct share a name, what is flattened is a struct that accepts the
    * names of its surroundings, and initial and default values are of the field's type.
    */
  predicate WellFormed(ty: Ty) {
    match ty
    case TVec(elem) => WellFormed(elem)
    case TOpt(elem) => WellFormed(elem)
    case TStruct(fields, _) => WellFormedFields(fields)
    case _ => true
  }

  predicate WellFormedFields(fs: Fields) {
    fs.Fields? ==>
      && WellFormed(fs.head.ty) && WellFormedFields(fs.tail)
      && (fs.head.flatten ==> fs.head.ty.TStruct? && !fs.head.ty.denyUnknown)
      && FieldKeys(fs.head) !! KeysOf(fs.tail)
      && HasType(fs.head.ty, fs.head.initial)
      && (fs.head.default.Some? ==> HasType(fs.head.ty, fs.head.default.value))
  }

  // ---------- every result has the type asked for ----------

  /** Whatever the JSON value, a success holds a value of the type: nothing wraps around. */
  lemma {:induction false} DeserializedHasType(ty: Ty, j: Json)
    requires WellFormed(ty) && InRange(j) && Deserialize(ty, j).Ok?
    ensures HasType(ty, Deserialize(ty, j).value)
    decreases ty, 0
  {
    match ty
    case TVec(elem) => AllHaveType(elem, j.elements);
    case TOpt(elem) => if !j.JNull? { DeserializedHasType(elem, j); }
    case TStruct(fields, _) => FieldsHaveTypes(fields, j.members);
    case _ =>
  }

  lemma {:induction false} AllHaveType(elem: Ty, js: seq<Json>)
    requires WellFormed(elem) && DeserializeAll(elem, js).Ok?
    requires forall j :: j in js ==> InRange(j)
    ensures forall x :: x in DeserializeAll(elem, js).value ==> HasType(elem, x)
    decreases elem, 1, |js|
  {
    if js != [] {
      DeserializedHasType(elem, js[0]);
      AllHaveType(elem, js[1..]);
    }
  }

  lemma {:induction false} FieldsHaveTypes(fs: Fields, obj: map<seq<byte>, Json>)
    requires WellFormedFields(fs) && InRange(JObj(obj)) && DeserializeFields(fs, obj).Some?
    ensures HaveTypes(fs, DeserializeFields(fs, obj).value)
    decreases fs, 0
  {
    if fs.Fields? {
      var f := fs.head;
      if !f.skipDeserializing && f.flatten {
        DeserializedHasType(f.ty, JObj(obj));
      } else if !f.skipDeserializing && f.name in obj {
        DeserializedHasType(f.ty, obj[f.name]);
      }
      FieldsHaveTypes(fs.tail, obj);
      var all := DeserializeFields(fs, obj).value;
      assert all[1..] == DeserializeFields(fs.tail, obj).value;
    }
  }

  // ---------- what a round trip gives back ----------

  /** Serialized as null: an empty optional, or a null value. */
  predicate Nullish(ty: Ty, d: Data)
    requires HasType(ty, d)
  {
    match ty
    case TAny => d.j == JNull
    case TOpt(elem) => d.content.None? || Nullish(elem, d.content.value)
    case _ => false
  }

  /** What a field holds when nothing was written for it. */
  function Absent(f: Field): Option<Data> {
    if f.skipDeserializing then Some(f.initial)
    else if f.flatten && f.ty.TStruct? then
      var inner := AllAbsent(f.ty.fields);
      if inner.Some? then Some(DStruct(inner.value)) else None
    else if f.default.Some? then f.default
    else if f.ty.TOpt? then Some(DOpt(None))
    else None
  }

  function AllAbsent(fs: Fields): Option<seq<Data>> {
    match fs
    case NoFields => Some([])
    case Fields(f, rest) =>
      if Absent(f).None? || AllAbsent(rest).None? then None
      else Some([Absent(f).value] + AllAbsent(rest).value)
  }

  /**
    * The data that survives: no unsigned number above 2^63-1 that a double cannot hold, no full
    * optional around something that is written as null, and nothing that is left out on writing
    * or reading unless its value is the one an absent field gets.
    */
  predicate Faithful(ty: Ty, d: Data)
    requires HasType(ty, d)
    decreases ty, 0
  {
    match ty
    case TULong => d.i <= LONG_MAX || (d.i % 2048 == 0)
    case TVec(elem) => forall x :: x in d.elements ==> Faithful(elem, x)
    case TOpt(elem) =>
      d.content.Some? ==> Faithful(elem, d.content.value) && !Nullish(elem, d.content.value)
    case TStruct(fields, _) => AllFaithful(fields, d.members)
    case _ => true
  }

  predicate AllFaithful(fs: Fields, ds: seq<Data>)
    requires HaveTypes(fs, ds)
    decreases fs, 0
  {
    fs.Fields? ==> FaithfulField(fs.head, ds[0]) && AllFaithful(fs.tail, ds[1..])
  }

  predicate FaithfulField(f: Field, d: Data)
    requires HasType(f.ty, d)
    decreases f, 0
  {
    if f.skipDeserializing then d == f.initial
    else if Omitted(f, d) then Absent(f) == Some(d)
    else Faithful(f.ty, d)
  }

  // ---------- the round trip ----------

  predicate AgreeOn(keys: set<seq<byte>>, a: map<seq<byte>, Json>, b: map<seq<byte>, Json>) {
    forall k :: k in keys ==> (k in a <==> k in b) && (k in a && k in b ==> a[k] == b[k])
  }

  /** Well-formed structs serialize without a name collision. */
  lemma {:induction false} SerializeSucceeds(ty: Ty, d: Data)
    requires WellFormed(ty) && HasType(ty, d)
    ensures Serialize(ty, d).Ok?
    ensures ty.TStruct? ==> Serialize(ty, d).value.JObj? && Serialize(ty, d).value.members.Keys <= KeysOf(ty.fields)
    decreases ty, 0
  {
    match ty
    case TVec(elem) => AllSucceed(elem, d.elements);
    case TOpt(elem) => if d.content.Some? { SerializeSucceeds(elem, d.content.value); }
    case TStruct(fields, _) => FieldsSucceed(fields, d.members, map[]);
    case _ =>
  }

  lemma {:induction false} AllSucceed(elem: Ty, ds: seq<Data>)
    requires WellFormed(elem) && forall x :: x in ds ==> HasType(elem, x)
    ensures SerializeAll(elem, ds).Ok?
    decreases elem, 1, |ds|
  {
    if ds != [] {
      SerializeSucceeds(elem, ds[0]);
      AllSucceed(elem, ds[1..]);
    }
  }

  lemma {:induction false} FieldsSucceed(fs: Fields, ds: seq<Data>, obj: map<seq<byte>, Json>)
    requires WellFormedFields(fs) && HaveTypes(fs, ds) && obj.Keys !! KeysOf(fs)
    ensures var r := SerializeFields(fs, ds, obj);
            r.Ok? && obj.Keys <= r.value.Keys <= obj.Keys + KeysOf(fs) &&
            forall k :: k in obj ==> r.value[k] == obj[k]
    decreases fs, 0
  {
    if fs.Fields? {
      SerializeSucceeds(fs.head.ty, ds[0]);
      FieldsSucceed(fs.tail, ds[1..], SerializeField(fs.head, ds[0], obj).value);
    }
  }

  lemma {:induction false} NullExactly(ty: Ty, d: Data)
    requires WellFormed(ty) && HasType(ty, d) && Serialize(ty, d).Ok?
    ensures Serialize(ty, d).value == JNull <==> Nullish(ty, d)
    decreases ty
  {
    if ty.TOpt? && d.content.Some? {
      NullExactly(ty.elem, d.content.value);
    }
  }

  lemma {:induction false} DoubleExactly(v: nat)
    requires LONG_MAX < v <= ULONG_MAX
    ensures AsUint64(JDouble(NearestDouble(v) as real)) == Ok(v) <==> v % 2048 == 0
  {
    assert (NearestDouble(v) as real).Floor == NearestDouble(v);
  }

  /** Reading back what was written gives the value exactly when it is one that survives. */
  lemma {:induction false} RoundTripExactly(ty: Ty, d: Data)
    requires WellFormed(ty) && HasType(ty, d)
    ensures Serialize(ty, d).Ok?
    ensures Deserialize(ty, Serialize(ty, d).value) == Ok(d) <==> Faithful(ty, d)
    decreases ty, 0
  {
    SerializeSucceeds(ty, d);
    match ty
    case TULong => if d.i > LONG_MAX { DoubleExactly(d.i); }
    case TVec(elem) =>
      AllSucceed(elem, d.elements);
      AllRoundTrip(elem, d.elements);
    case TOpt(elem) =>
      if d.content.Some? {
        RoundTripExactly(elem, d.content.value);
        NullExactly(elem, d.content.value);
      }
    case TStruct(fields, _) =>
      FieldsSucceed(fields, d.members, map[]);
      var obj := SerializeFields(fields, d.members, map[]).value;
      FieldsRoundTrip(fields, d.members, map[], obj);
      if !HasFlattened(fields) {
        NoUnknown(fields);
      }
    case _ =>
  }

  lemma {:induction false} NoUnknown(fs: Fields)
    requires !HasFlattened(fs)
    ensures KeysOf(fs) == Names(fs)
  {
    if fs.Fields? {
      NoUnknown(fs.tail);
    }
  }

  lemma {:induction false} AllRoundTrip(elem: Ty, ds: seq<Data>)
    requires WellFormed(elem) && forall x :: x in ds ==> HasType(elem, x)
    requires SerializeAll(elem, ds).Ok?
    ensures DeserializeAll(elem, SerializeAll(elem, ds).value) == Ok(ds) <==>
            forall x :: x in ds ==> Faithful(elem, x)
    decreases elem, 1, |ds|
  {
    if ds != [] {
      RoundTripExactly(elem, ds[0]);
      AllRoundTrip(elem, ds[1..]);
      var js := SerializeAll(elem, ds).value;
      assert js[1..] == SerializeAll(elem, ds[1..]).value;
      var first, rest := Deserialize(elem, js[0]), DeserializeAll(elem, js[1..]);
      if first.Ok? && rest.Ok? {
        ConsIs(first.value, rest.value, ds);
      }
      assert forall x :: x in ds <==> x == ds[0] || x in ds[1..];
    }
  }

  lemma {:induction false} ConsIs<T>(x: T, xs: seq<T>, ys: seq<T>)
    requires ys != []
    ensures [x] + xs == ys <==> x == ys[0] && xs == ys[1..]
  {
    assert ([x] + xs)[1..] == xs;
    assert [ys[0]] + ys[1..] == ys;
  }

  lemma {:induction false} FieldsRoundTrip(fs: Fields, ds: seq<Data>, obj: map<seq<byte>, Json>, whole: map<seq<byte>, Json>)
    requires WellFormedFields(fs) && HaveTypes(fs, ds) && obj.Keys !! KeysOf(fs)
    requires SerializeFields(fs, ds, obj).Ok?
    requires AgreeOn(KeysOf(fs), whole, SerializeFields(fs, ds, obj).value)
    ensures DeserializeFields(fs, whole) == Some(ds) <==> AllFaithful(fs, ds)
    decreases fs, 0
  {
    if fs.Fields? {
      var f, d := fs.head, ds[0];
      SerializeSucceeds(f.ty, d);
      var next := SerializeField(f, d, obj).value;
      FieldsSucceed(fs.tail, ds[1..], next);
      FieldsRoundTrip(fs.tail, ds[1..], next, whole);
      FieldRoundTrip(f, d, obj, whole);
      var first, rest := DeserializeField(f, whole), DeserializeFields(fs.tail, whole);
      if first.Some? && rest.Some? {
        ConsIs(first.value, rest.value, ds);
      }
    }
  }

  lemma {:induction false} FieldRoundTrip(f: Field, d: Data, obj: map<seq<byte>, Json>, whole: map<seq<byte>, Json>)
    requires WellFormed(f.ty) && HasType(f.ty, d) && obj.Keys !! FieldKeys(f)
    requires f.flatten ==> f.ty.TStruct? && !f.ty.denyUnknown
    requires SerializeField(f, d, obj).Ok?
    requires AgreeOn(FieldKeys(f), whole, SerializeField(f, d, obj).value)
    ensures DeserializeField(f, whole) == Some(d) <==> FaithfulField(f, d)
    decreases f, 0
  {
    if f.skipDeserializing {
    } else if f.flatten {
      var inner := f.ty.fields;
      if f.skipSerializing {
        NothingWritten(inner, whole);
      } else {
        FieldsSucceed(inner, d.members, map[]);
        FieldsRoundTrip(inner, d.members, map[], whole);
      }
    } else if !Omitted(f, d) {
      RoundTripExactly(f.ty, d);
    }
  }

  lemma {:induction false} NothingWritten(fs: Fields, obj: map<seq<byte>, Json>)
    requires WellFormedFields(fs) && obj.Keys !! KeysOf(fs)
    ensures DeserializeFields(fs, obj) == AllAbsent(fs)
    decreases fs
  {
    if fs.Fields? {
      var f := fs.head;
      assert obj.Keys !! FieldKeys(f);
      if f.flatten {
        NothingWritten(f.ty.fields, obj);
      } else {
        assert f.name in FieldKeys(f);
      }
      NothingWritten(fs.tail, obj);
      assert DeserializeField(f, obj) == Absent(f);
    }
  }

  // ---------- what does not survive ----------

  function Plain(name: seq<byte>, ty: Ty, initial: Data): Field {
    Field(name, ty, false, false, false, false, None, initial)
  }

  /** An optional JSON value, such as the result of an RPC response, loses an explicit null. */
  lemma {:induction false} NullResultIsLost(name: seq<byte>, deny: bool)
    ensures var field := Plain(name, TOpt(TAny), DOpt(None)).(skipIfNone := true);
            var response := TStruct(Fields(field, NoFields), deny);
            var data := DStruct([DOpt(Some(DAny(JNull)))]);
            WellFormed(response) && HasType(response, data) &&
            Serialize(response, data) == Ok(JObj(map[name := JNull])) &&
            Deserialize(response, JObj(map[name := JNull])) == Ok(DStruct([DOpt(None)]))
  {
    var field := Plain(name, TOpt(TAny), DOpt(None)).(skipIfNone := true);
    var fs := Fields(field, NoFields);
    var obj := map[name := JNull];
    assert SerializeFields(NoFields, [], obj) == Ok(obj);
    assert [DOpt(Some(DAny(JNull)))][1..] == [];
    assert HaveTypes(NoFields, []);
    assert SerializeField(field, DOpt(Some(DAny(JNull))), map[]) == Ok(obj);
    assert Serialize(TOpt(TAny), DOpt(Some(DAny(JNull)))) == Ok(JNull);
    assert DeserializeField(field, obj) == Some(DOpt(None));
    assert DeserializeFields(NoFields, obj) == Some([]);
    var read := [DOpt(None)];
    assert DeserializeFields(fs, obj) == Some(read + []);
    assert read + [] == read;
    assert Names(fs) == {name};
  }

  /** An empty optional that is skipped on writing comes back as the default, if it has one. */
  lemma {:induction false} SkippedBecomesDefault(name: seq<byte>, x: int)
    requires -INT_MAX - 1 <= x <= INT_MAX
    ensures var field := Plain(name, TOpt(TInt), DOpt(None)).(skipIfNone := true, default := Some(DOpt(Some(DInt(x)))));
            var ty := TStruct(Fields(field, NoFields), false);
            WellFormed(ty) && HasType(ty, DStruct([DOpt(None)])) && !Faithful(ty, DStruct([DOpt(None)])) &&
            Serialize(ty, DStruct([DOpt(None)])) == Ok(JObj(map[])) &&
            Deserialize(ty, JObj(map[])) == Ok(DStruct([DOpt(Some(DInt(x)))]))
  {
    var field := Plain(name, TOpt(TInt), DOpt(None)).(skipIfNone := true, default := Some(DOpt(Some(DInt(x)))));
    var fs := Fields(field, NoFields);
    assert [DOpt(None)][1..] == [] && HaveTypes(NoFields, []);
    assert SerializeField(field, DOpt(None), map[]) == Ok(map[]);
    assert SerializeFields(NoFields, [], map[]) == Ok(map[]);
    assert DeserializeField(field, map[]) == Some(DOpt(Some(DInt(x))));
    assert DeserializeFields(NoFields, map[]) == Some([]);
    assert WellFormedFields(NoFields) && WellFormed(TInt) && WellFormed(TOpt(TInt));
    assert HasType(TInt, DInt(x)) && HasType(field.ty, field.default.value);
    assert Absent(field) == field.default && !FaithfulField(field, DOpt(None));
    var read := [DOpt(Some(DInt(x)))];
    assert DeserializeFields(fs, map[]) == Some(read + []);
    assert read + [] == read;
  }
}
