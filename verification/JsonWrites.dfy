/** What serialization writes for every value of every type. */
module JsonWrites {
  import opened Common
  import opened JsonTyped

  /** The multiple of 2048 closest to `v`, of two equally close ones the multiple of 4096. */
  predicate ClosestDouble(v: int, n: int) {
    n % 2048 == 0 && -1024 <= n - v <= 1024 && (n - v == 1024 || v - n == 1024 ==> n % 4096 == 0)
  }

  predicate Writes(ty: Ty, d: Data, j: Json)
    requires HasType(ty, d)
    decreases ty, 0
  {
    match ty
    case TBool => j == JBool(d.b)
    case TInt | TUInt | TLong => j == JInt(d.i)
    case TULong =>
      if d.i <= 9_223_372_036_854_775_807 then j == JInt(d.i)
      else j.JDouble? && j.r == j.r.Floor as real && ClosestDouble(d.i, j.r.Floor)
    case TStr => j == JStr(d.s)
    case TAny => j == d.j
    case TVec(elem) =>
      j.JArr? && |j.elements| == |d.elements| && forall k :: 0 <= k < |d.elements| ==> Writes(elem, d.elements[k], j.elements[k])
    case TOpt(elem) => if d.content.Some? then Writes(elem, d.content.value, j) else j == JNull
    case TStruct(fields, _) =>
      j.JObj? && AllWritten(fields, d.members, j.members) && j.members.Keys == KeysWritten(fields, d.members)
  }

  predicate LeftOut(f: Field, d: Data) { f.skipSerializing || (f.skipIfNone && f.ty.TOpt? && d == DOpt(None)) }

  predicate AllWritten(fs: Fields, ds: seq<Data>, obj: map<seq<byte>, Json>)
    requires HaveTypes(fs, ds)
    decreases fs, 0
  {
    fs.Fields? ==> FieldWritten(fs.head, ds[0], obj) && AllWritten(fs.tail, ds[1..], obj)
  }

  /** A field is left out, written among the members of the struct it is in, or a member itself. */
  predicate FieldWritten(f: Field, d: Data, obj: map<seq<byte>, Json>)
    requires HasType(f.ty, d)
    decreases f, 0
  {
    || LeftOut(f, d)
    || (if f.flatten && f.ty.TStruct? then AllWritten(f.ty.fields, d.members, obj)
        else f.name in obj && Writes(f.ty, d, obj[f.name]))
  }

  function KeysWritten(fs: Fields, ds: seq<Data>): set<seq<byte>>
    requires HaveTypes(fs, ds)
    decreases fs, 0
  {
    if fs.NoFields? then {} else KeysOfField(fs.head, ds[0]) + KeysWritten(fs.tail, ds[1..])
  }

  function KeysOfField(f: Field, d: Data): set<seq<byte>>
    requires HasType(f.ty, d)
    decreases f, 0
  {
    if LeftOut(f, d) then {}
    else if f.flatten && f.ty.TStruct? then KeysWritten(f.ty.fields, d.members)
    else {f.name}
  }

  // ---------- numbers ----------

  lemma {:induction false} NearestIsClosest(v: nat)
    ensures ClosestDouble(v, NearestDouble(v))
  {
    ClosestFrom(v, v / 2048, v - v / 2048 * 2048);
  }

  lemma {:induction false} ClosestFrom(v: nat, q: nat, over: nat)
    requires v == q * 2048 + over && over < 2048
    ensures var n := if over < 1024 || (over == 1024 && q % 2 == 0) then q * 2048 else (q + 1) * 2048;
            ClosestDouble(v, n)
  {
    EvenMultiple(q);
    EvenMultiple(q + 1);
  }

  lemma {:induction false} EvenMultiple(q: nat)
    ensures q * 2048 % 2048 == 0
    ensures q % 2 == 0 ==> q * 2048 % 4096 == 0
  {
    QuotientUnique(q * 2048, q, 0, 2048);
    if q % 2 == 0 {
      QuotientUnique(q * 2048, q / 2, 0, 4096);
    }
  }

  // ---------- larger objects ----------

  predicate Within(a: map<seq<byte>, Json>, b: map<seq<byte>, Json>) { forall k :: k in a ==> k in b && b[k] == a[k] }

  lemma {:induction false} WrittenWithin(fs: Fields, ds: seq<Data>, a: map<seq<byte>, Json>, b: map<seq<byte>, Json>)
    requires HaveTypes(fs, ds) && AllWritten(fs, ds, a) && Within(a, b)
    ensures AllWritten(fs, ds, b)
    decreases fs, 0
  {
    if fs.Fields? {
      FieldWithin(fs.head, ds[0], a, b);
      WrittenWithin(fs.tail, ds[1..], a, b);
    }
  }

  lemma {:induction false} FieldWithin(f: Field, d: Data, a: map<seq<byte>, Json>, b: map<seq<byte>, Json>)
    requires HasType(f.ty, d) && FieldWritten(f, d, a) && Within(a, b)
    ensures FieldWritten(f, d, b)
    decreases f, 0
  {
    if !LeftOut(f, d) && f.flatten && f.ty.TStruct? {
      WrittenWithin(f.ty.fields, d.members, a, b);
    }
  }

  // ---------- every type ----------

  /** Every value of every well-formed type is written as itself, and a struct with no member too many. */
  lemma {:induction false} WritesEveryValue(ty: Ty, d: Data)
    requires WellFormed(ty) && HasType(ty, d)
    ensures Serialize(ty, d).Ok? && Writes(ty, d, Serialize(ty, d).value)
    decreases ty, 0
  {
    match ty
    case TULong =>
      NearestIsClosest(d.i);
      assert (NearestDouble(d.i) as real).Floor == NearestDouble(d.i);
    case TVec(elem) => AllElements(elem, d.elements);
    case TOpt(elem) => if d.content.Some? { WritesEveryValue(elem, d.content.value); }
    case TStruct(fields, _) =>
      FieldsSucceed(fields, d.members, map[]);
      MembersWritten(fields, d.members, map[]);
    case _ =>
  }

  lemma {:induction false} AllElements(elem: Ty, ds: seq<Data>)
    requires WellFormed(elem) && forall x :: x in ds ==> HasType(elem, x)
    ensures var r := SerializeAll(elem, ds);
            r.Ok? && |r.value| == |ds| && forall k :: 0 <= k < |ds| ==> Writes(elem, ds[k], r.value[k])
    decreases elem, 1, |ds|
  {
    if ds != [] {
      WritesEveryValue(elem, ds[0]);
      AllElements(elem, ds[1..]);
      var r, rest := SerializeAll(elem, ds).value, SerializeAll(elem, ds[1..]).value;
      forall k | 0 <= k < |ds|
        ensures Writes(elem, ds[k], r[k])
      {
        if k > 0 {
          assert ds[k] == ds[1..][k - 1] && r[k] == rest[k - 1];
        }
      }
    }
  }

  lemma {:induction false} MembersWritten(fs: Fields, ds: seq<Data>, obj: map<seq<byte>, Json>)
    requires WellFormedFields(fs) && HaveTypes(fs, ds) && obj.Keys !! KeysOf(fs) && SerializeFields(fs, ds, obj).Ok?
    ensures var m := SerializeFields(fs, ds, obj).value;
            AllWritten(fs, ds, m) && m.Keys == obj.Keys + KeysWritten(fs, ds)
    decreases fs, 0
  {
    if fs.Fields? {
      SerializeSucceeds(fs.head.ty, ds[0]);
      MemberWritten(fs.head, ds[0], obj);
      var next := SerializeField(fs.head, ds[0], obj).value;
      FieldsSucceed(fs.tail, ds[1..], next);
      MembersWritten(fs.tail, ds[1..], next);
      FieldWithin(fs.head, ds[0], next, SerializeFields(fs.tail, ds[1..], next).value);
    }
  }

  lemma {:induction false} MemberWritten(f: Field, d: Data, obj: map<seq<byte>, Json>)
    requires WellFormed(f.ty) && HasType(f.ty, d) && obj.Keys !! FieldKeys(f)
    requires f.flatten ==> f.ty.TStruct?
    requires SerializeField(f, d, obj).Ok?
    ensures var m := SerializeField(f, d, obj).value; FieldWritten(f, d, m) && m.Keys == obj.Keys + KeysOfField(f, d)
    decreases f, 0
  {
    if !f.skipSerializing {
      if f.flatten {
        var inner := f.ty.fields;
        FieldsSucceed(inner, d.members, map[]);
        MembersWritten(inner, d.members, map[]);
        WrittenWithin(inner, d.members, SerializeFields(inner, d.members, map[]).value, SerializeField(f, d, obj).value);
      } else if !LeftOut(f, d) {
        WritesEveryValue(f.ty, d);
      }
    }
  }
}
