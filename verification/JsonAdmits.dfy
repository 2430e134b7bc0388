/** What deserialization accepts, which value it then gives, and how it refuses everything else. */
module JsonAdmits {
  import opened Common
  import opened JsonTyped

  // ---------- what is admitted ----------

  /** The JSON number is the whole number `i`, written with or without a fraction. */
  predicate IsWhole(j: Json, i: int) { j == JInt(i) || j == JDouble(i as real) }

  predicate WholeWithin(j: Json, low: int, high: int) { exists i :: low <= i <= high && IsWhole(j, i) }

  function Listed(fs: Fields): seq<Field> {
    match fs
    case NoFields => []
    case Fields(f, rest) => [f] + Listed(rest)
  }

  /** No name in the object is left unused, unless a flattened field may use any. */
  predicate AllKnown(fs: Fields, obj: map<seq<byte>, Json>) {
    || (exists f :: f in Listed(fs) && f.flatten)
    || (forall k :: k in obj ==> exists f :: f in Listed(fs) && f.name == k)
  }

  predicate Admits(ty: Ty, j: Json)
    decreases ty, 0
  {
    match ty
    case TBool => j.JBool?
    case TInt => WholeWithin(j, -2_147_483_648, 2_147_483_647)
    case TUInt => WholeWithin(j, 0, 4_294_967_295)
    case TLong => WholeWithin(j, -9_223_372_036_854_775_808, 9_223_372_036_854_775_807)
    case TULong => WholeWithin(j, 0, 18_446_744_073_709_551_615)
    case TStr => j.JStr?
    case TAny => true
    case TVec(elem) => j.JArr? && forall k :: 0 <= k < |j.elements| ==> Admits(elem, j.elements[k])
    case TOpt(elem) => j == JNull || Admits(elem, j)
    case TStruct(fields, deny) => j.JObj? && AllAdmit(fields, j.members) && (deny ==> AllKnown(fields, j.members))
  }

  predicate AllAdmit(fs: Fields, obj: map<seq<byte>, Json>)
    decreases fs, 0
  {
    fs.Fields? ==> FieldAdmits(fs.head, obj) && AllAdmit(fs.tail, obj)
  }

  /** A field is not read, reads the whole object, reads its member, or can do without it. */
  predicate FieldAdmits(f: Field, obj: map<seq<byte>, Json>)
    decreases f, 0
  {
    || f.skipDeserializing
    || (f.flatten && Admits(f.ty, JObj(obj)))
    || (!f.flatten && f.name in obj && Admits(f.ty, obj[f.name]))
    || (!f.flatten && f.name !in obj && (f.default.Some? || f.ty.TOpt?))
  }

  // ---------- the value a success holds ----------

  predicate Means(ty: Ty, j: Json, d: Data)
    decreases ty, 0
  {
    match ty
    case TBool => j.JBool? && d == DBool(j.b)
    case TInt => d.DInt? && IsWhole(j, d.i) && -2_147_483_648 <= d.i <= 2_147_483_647
    case TUInt => d.DInt? && IsWhole(j, d.i) && 0 <= d.i <= 4_294_967_295
    case TLong => d.DInt? && IsWhole(j, d.i) && -9_223_372_036_854_775_808 <= d.i <= 9_223_372_036_854_775_807
    case TULong => d.DInt? && IsWhole(j, d.i) && 0 <= d.i <= 18_446_744_073_709_551_615
    case TStr => j.JStr? && d == DStr(j.s)
    case TAny => d == DAny(j)
    case TVec(elem) =>
      && j.JArr? && d.DVec? && |d.elements| == |j.elements|
      && forall k :: 0 <= k < |j.elements| ==> Means(elem, j.elements[k], d.elements[k])
    case TOpt(elem) =>
      if j == JNull then d == DOpt(None) else d.DOpt? && d.content.Some? && Means(elem, j, d.content.value)
    case TStruct(fields, deny) =>
      j.JObj? && d.DStruct? && AllMean(fields, j.members, d.members) && (deny ==> AllKnown(fields, j.members))
  }

  predicate AllMean(fs: Fields, obj: map<seq<byte>, Json>, ds: seq<Data>)
    decreases fs, 0
  {
    if fs.NoFields? then ds == [] else ds != [] && FieldMeans(fs.head, obj, ds[0]) && AllMean(fs.tail, obj, ds[1..])
  }

  predicate FieldMeans(f: Field, obj: map<seq<byte>, Json>, d: Data)
    decreases f, 0
  {
    if f.skipDeserializing then d == f.initial
    else if f.flatten then Means(f.ty, JObj(obj), d)
    else if f.name in obj then Means(f.ty, obj[f.name], d)
    else if f.default.Some? then d == f.default.value
    else f.ty.TOpt? && d == DOpt(None)
  }

  // ---------- how the rest is refused ----------

  /** The error for what is not admitted. */
  predicate Refuses(ty: Ty, j: Json, e: Error)
    decreases ty, 0
  {
    match ty
    case TBool | TStr | TAny => e == InvalidType
    case TInt | TUInt | TLong | TULong => e == if j.JInt? || j.JDouble? then InvalidValue else InvalidType
    case TVec(elem) =>
      if !j.JArr? then e == InvalidType
      else exists k :: 0 <= k < |j.elements| && FirstRefused(elem, j.elements, k) && Refuses(elem, j.elements[k], e)
    case TOpt(elem) => Refuses(elem, j, e)
    case TStruct(fields, _) =>
      e == if !j.JObj? then InvalidType else if !AllAdmit(fields, j.members) then InvalidData else UnknownField
  }

  predicate FirstRefused(elem: Ty, js: seq<Json>, k: nat)
    requires k < |js|
    decreases elem, 1
  {
    !Admits(elem, js[k]) && forall i :: 0 <= i < k ==> Admits(elem, js[i])
  }

  // ---------- numbers ----------

  lemma {:induction false} WholeDouble(r: real, i: int)
    ensures r == i as real <==> r == r.Floor as real && r.Floor == i
  {
  }

  lemma {:induction false} SignedExactly(j: Json, low: int, high: int, i: int)
    requires -LONG_MAX - 1 <= low && high <= LONG_MAX
    ensures Within(AsInt64(j), low, high) == Ok(DInt(i)) <==> low <= i <= high && IsWhole(j, i)
    ensures Within(AsInt64(j), low, high).Err? ==>
              Within(AsInt64(j), low, high).error == if j.JInt? || j.JDouble? then InvalidValue else InvalidType
  {
    if j.JDouble? {
      WholeDouble(j.r, i);
    }
  }

  lemma {:induction false} UnsignedExactly(j: Json, high: int, i: int)
    requires high <= ULONG_MAX
    ensures Within(AsUint64(j), 0, high) == Ok(DInt(i)) <==> 0 <= i <= high && IsWhole(j, i)
    ensures Within(AsUint64(j), 0, high).Err? ==>
              Within(AsUint64(j), 0, high).error == if j.JInt? || j.JDouble? then InvalidValue else InvalidType
  {
    if j.JDouble? {
      WholeDouble(j.r, i);
    }
  }

  lemma {:induction false} NumberExactly(ty: Ty, j: Json)
    requires ty.TInt? || ty.TUInt? || ty.TLong? || ty.TULong?
    ensures forall d :: Deserialize(ty, j) == Ok(d) <==> Means(ty, j, d)
    ensures Deserialize(ty, j).Ok? <==> Admits(ty, j)
    ensures Deserialize(ty, j).Err? ==> Refuses(ty, j, Deserialize(ty, j).error)
  {
    forall i: int
      ensures Deserialize(ty, j) == Ok(DInt(i)) <==> Means(ty, j, DInt(i))
      ensures Deserialize(ty, j).Err? ==> Refuses(ty, j, Deserialize(ty, j).error)
    {
      NumberIs(ty, j, i);
    }
    assert Deserialize(ty, j).Err? || Deserialize(ty, j).value.DInt?;
    assert forall d :: Means(ty, j, d) ==> d == DInt(d.i);
    if Admits(ty, j) {
      WholeIsMeant(ty, j);
    }
  }

  lemma {:induction false} NumberIs(ty: Ty, j: Json, i: int)
    requires ty.TInt? || ty.TUInt? || ty.TLong? || ty.TULong?
    ensures Deserialize(ty, j) == Ok(DInt(i)) <==> Means(ty, j, DInt(i))
    ensures Deserialize(ty, j).Err? ==> Refuses(ty, j, Deserialize(ty, j).error)
  {
    match ty
    case TInt => SignedExactly(j, -INT_MAX - 1, INT_MAX, i);
    case TUInt => UnsignedExactly(j, UINT_MAX, i);
    case TLong => SignedExactly(j, -LONG_MAX - 1, LONG_MAX, i);
    case TULong => UnsignedExactly(j, ULONG_MAX, i);
  }

  lemma {:induction false} WholeIsMeant(ty: Ty, j: Json)
    requires (ty.TInt? || ty.TUInt? || ty.TLong? || ty.TULong?) && Admits(ty, j)
    ensures exists i: int :: Means(ty, j, DInt(i))
  {
    match ty
    case TInt => var i :| -2_147_483_648 <= i <= 2_147_483_647 && IsWhole(j, i); assert Means(ty, j, DInt(i));
    case TUInt => var i :| 0 <= i <= 4_294_967_295 && IsWhole(j, i); assert Means(ty, j, DInt(i));
    case TLong =>
      var i :| -9_223_372_036_854_775_808 <= i <= 9_223_372_036_854_775_807 && IsWhole(j, i);
      assert Means(ty, j, DInt(i));
    case TULong => var i :| 0 <= i <= 18_446_744_073_709_551_615 && IsWhole(j, i); assert Means(ty, j, DInt(i));
  }

  // ---------- arrays ----------

  /** The elements, one by one. */
  predicate EachMeans(elem: Ty, js: seq<Json>, ds: seq<Data>) {
    |ds| == |js| && forall k :: 0 <= k < |js| ==> Means(elem, js[k], ds[k])
  }

  predicate EachAdmits(elem: Ty, js: seq<Json>) { forall k :: 0 <= k < |js| ==> Admits(elem, js[k]) }

  ghost predicate SomeRefuses(elem: Ty, js: seq<Json>, e: Error) {
    exists k :: 0 <= k < |js| && FirstRefused(elem, js, k) && Refuses(elem, js[k], e)
  }

  lemma {:induction false} EachMeansCons(elem: Ty, js: seq<Json>, ds: seq<Data>)
    requires js != [] && ds != []
    ensures EachMeans(elem, js, ds) <==> Means(elem, js[0], ds[0]) && EachMeans(elem, js[1..], ds[1..])
  {
    if Means(elem, js[0], ds[0]) && EachMeans(elem, js[1..], ds[1..]) {
      forall k | 0 <= k < |js|
        ensures Means(elem, js[k], ds[k])
      {
        if k > 0 {
          assert Means(elem, js[1..][k - 1], ds[1..][k - 1]);
        }
      }
    }
  }

  lemma {:induction false} EachAdmitsCons(elem: Ty, js: seq<Json>)
    requires js != []
    ensures EachAdmits(elem, js) <==> Admits(elem, js[0]) && EachAdmits(elem, js[1..])
  {
    if Admits(elem, js[0]) && EachAdmits(elem, js[1..]) {
      forall k | 0 <= k < |js|
        ensures Admits(elem, js[k])
      {
        if k > 0 {
          assert Admits(elem, js[1..][k - 1]);
        }
      }
    }
  }

  lemma {:induction false} SomeRefusesCons(elem: Ty, js: seq<Json>, e: Error)
    requires js != [] && Admits(elem, js[0]) && SomeRefuses(elem, js[1..], e)
    ensures SomeRefuses(elem, js, e)
  {
    var k :| 0 <= k < |js[1..]| && FirstRefused(elem, js[1..], k) && Refuses(elem, js[1..][k], e);
    forall i | 0 <= i < k + 1
      ensures Admits(elem, js[i])
    {
      if i > 0 {
        assert Admits(elem, js[1..][i - 1]);
      }
    }
    assert FirstRefused(elem, js, k + 1) && Refuses(elem, js[k + 1], e);
  }

  lemma {:induction false} AllExactly(elem: Ty, js: seq<Json>)
    ensures forall ds :: DeserializeAll(elem, js) == Ok(ds) <==> EachMeans(elem, js, ds)
    ensures DeserializeAll(elem, js).Ok? <==> EachAdmits(elem, js)
    ensures DeserializeAll(elem, js).Err? ==> SomeRefuses(elem, js, DeserializeAll(elem, js).error)
    decreases elem, 1, |js|
  {
    if js != [] {
      DeserializesExactly(elem, js[0]);
      AllExactly(elem, js[1..]);
      EachAdmitsCons(elem, js);
      forall ds
        ensures DeserializeAll(elem, js) == Ok(ds) <==> EachMeans(elem, js, ds)
      {
        if ds != [] {
          EachMeansCons(elem, js, ds);
          AllCons(elem, js, ds);
        }
      }
      if DeserializeAll(elem, js).Err? {
        if Deserialize(elem, js[0]).Ok? {
          SomeRefusesCons(elem, js, DeserializeAll(elem, js).error);
        } else {
          assert FirstRefused(elem, js, 0);
        }
      }
    }
  }

  lemma {:induction false} AllCons(elem: Ty, js: seq<Json>, ds: seq<Data>)
    requires js != [] && ds != []
    ensures DeserializeAll(elem, js) == Ok(ds) <==>
            Deserialize(elem, js[0]) == Ok(ds[0]) && DeserializeAll(elem, js[1..]) == Ok(ds[1..])
  {
    var first, rest := Deserialize(elem, js[0]), DeserializeAll(elem, js[1..]);
    if first.Ok? && rest.Ok? {
      ConsIs(first.value, rest.value, ds);
    }
  }

  // ---------- objects ----------

  lemma {:induction false} FieldExactly(f: Field, obj: map<seq<byte>, Json>)
    ensures forall d :: DeserializeField(f, obj) == Some(d) <==> FieldMeans(f, obj, d)
    ensures DeserializeField(f, obj).Some? <==> FieldAdmits(f, obj)
    decreases f, 0
  {
    if !f.skipDeserializing && f.flatten {
      DeserializesExactly(f.ty, JObj(obj));
    } else if !f.skipDeserializing && f.name in obj {
      DeserializesExactly(f.ty, obj[f.name]);
    }
  }

  lemma {:induction false} FieldsExactly(fs: Fields, obj: map<seq<byte>, Json>)
    ensures forall ds :: DeserializeFields(fs, obj) == Some(ds) <==> AllMean(fs, obj, ds)
    ensures DeserializeFields(fs, obj).Some? <==> AllAdmit(fs, obj)
    decreases fs, 0
  {
    if fs.Fields? {
      FieldExactly(fs.head, obj);
      FieldsExactly(fs.tail, obj);
      forall ds
        ensures DeserializeFields(fs, obj) == Some(ds) <==> AllMean(fs, obj, ds)
      {
        if ds != [] {
          FieldsCons(fs, obj, ds);
        }
      }
    }
  }

  lemma {:induction false} FieldsCons(fs: Fields, obj: map<seq<byte>, Json>, ds: seq<Data>)
    requires fs.Fields? && ds != []
    ensures DeserializeFields(fs, obj) == Some(ds) <==>
            DeserializeField(fs.head, obj) == Some(ds[0]) && DeserializeFields(fs.tail, obj) == Some(ds[1..])
  {
    var first, rest := DeserializeField(fs.head, obj), DeserializeFields(fs.tail, obj);
    if first.Some? && rest.Some? {
      ConsIs(first.value, rest.value, ds);
    }
  }

  lemma {:induction false} ListedExactly(fs: Fields, name: seq<byte>)
    ensures HasFlattened(fs) <==> exists f :: f in Listed(fs) && f.flatten
    ensures name in Names(fs) <==> exists f :: f in Listed(fs) && !f.flatten && f.name == name
  {
    if fs.Fields? {
      ListedExactly(fs.tail, name);
      assert forall f :: f in Listed(fs) <==> f == fs.head || f in Listed(fs.tail);
    }
  }

  lemma {:induction false} KnownExactly(fs: Fields, obj: map<seq<byte>, Json>)
    ensures AllKnown(fs, obj) <==> HasFlattened(fs) || obj.Keys <= Names(fs)
  {
    ListedExactly(fs, []);
    forall k | k in obj
      ensures !HasFlattened(fs) ==> (k in Names(fs) <==> exists f :: f in Listed(fs) && f.name == k)
    {
      ListedExactly(fs, k);
    }
  }

  // ---------- every type ----------

  /**
    * For every type and every JSON value: deserialization succeeds exactly on what the type admits,
    * with exactly the value it means, and refuses everything else with its error.
    */
  lemma {:induction false} DeserializesExactly(ty: Ty, j: Json)
    ensures forall d :: Deserialize(ty, j) == Ok(d) <==> Means(ty, j, d)
    ensures Deserialize(ty, j).Ok? <==> Admits(ty, j)
    ensures Deserialize(ty, j).Err? ==> Refuses(ty, j, Deserialize(ty, j).error)
    decreases ty, 0
  {
    match ty
    case TInt | TUInt | TLong | TULong => NumberExactly(ty, j);
    case TVec(elem) => if j.JArr? { AllExactly(elem, j.elements); VecExactly(elem, j); }
    case TOpt(elem) => DeserializesExactly(elem, j);
    case TStruct(fields, deny) =>
      if j.JObj? {
        FieldsExactly(fields, j.members);
        KnownExactly(fields, j.members);
      }
    case _ =>
  }

  lemma {:induction false} VecExactly(elem: Ty, j: Json)
    requires j.JArr?
    requires forall ds :: DeserializeAll(elem, j.elements) == Ok(ds) <==> EachMeans(elem, j.elements, ds)
    requires DeserializeAll(elem, j.elements).Ok? <==> EachAdmits(elem, j.elements)
    requires DeserializeAll(elem, j.elements).Err? ==> SomeRefuses(elem, j.elements, DeserializeAll(elem, j.elements).error)
    ensures forall d :: Deserialize(TVec(elem), j) == Ok(d) <==> Means(TVec(elem), j, d)
    ensures Deserialize(TVec(elem), j).Ok? <==> Admits(TVec(elem), j)
    ensures Deserialize(TVec(elem), j).Err? ==> Refuses(TVec(elem), j, Deserialize(TVec(elem), j).error)
  {
    forall d
      ensures Deserialize(TVec(elem), j) == Ok(d) <==> Means(TVec(elem), j, d)
    {
      if d.DVec? {
        assert Means(TVec(elem), j, d) <==> EachMeans(elem, j.elements, d.elements);
      }
    }
  }
}
