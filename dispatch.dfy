/** The type switch of write.go as a pure classifier: for one slice element or
    struct field it decides which setter calls are made on one cell, or that
    no cell is written.  The methods in module Xlsx carry the decision out. */
module Dispatch {
  import opened Values

  /** The setter the valid branch of a nullable wrapper calls with its inner value. */
  function InnerSetter(n: Nullable): Setter {
    match n
    case SqlNullString(_, s) => CallSetValue(NativeString(s))
    case SqlNullBool(_, b) => CallSetBool(b)
    case SqlNullInt64(_, i) => CallSetValue(NativeInt(i))
    case SqlNullFloat64(_, f) => CallSetValue(NativeFloat(f))
    case NullsString(_, s) => CallSetValue(NativeString(s))
    case NullsBool(_, b) => CallSetBool(b)
    case NullsInt(_, i) => CallSetValue(NativeInt(i))
    case NullsInt64(_, i) => CallSetValue(NativeInt(i))
    case NullsFloat64(_, f) => CallSetValue(NativeFloat(f))
  }

  /** The content a valid wrapper's inner value is stored as. */
  function InnerContent(n: Nullable): Content {
    match n
    case SqlNullString(_, s) => Text(s)
    case SqlNullBool(_, b) => Boolean(b)
    case SqlNullInt64(_, i) => Integer(i)
    case SqlNullFloat64(_, f) => Number(f)
    case NullsString(_, s) => Text(s)
    case NullsBool(_, b) => Boolean(b)
    case NullsInt(_, i) => Integer(i)
    case NullsInt64(_, i) => Integer(i)
    case NullsFloat64(_, f) => Number(f)
  }

  /** The exact-type cases of the switch, tried in their order in the source:
      time.Time, fmt.Stringer, then the nullable wrappers.  WriteSlice knows
      only the database/sql wrappers (`nulls` false); WriteStruct also knows
      the gobuffalo/nulls ones.  None means the switch reaches `default`. */
  function TypeCase(t: Option<Dyn>, nulls: bool): (r: Option<Write>)
    ensures r.Some? <==>
      t.Some? && (t.value.TimeValue? || Stringer(t.value).Some? || (t.value.Wrapper? && (IsSql(t.value.n) || nulls)))
    ensures r.Some? && r.value.Blank? <==> t.Some? && t.value.Wrapper? && (IsSql(t.value.n) || nulls)
    ensures r.Some? && r.value.Blank? ==>
      Render(r.value) == if t.value.n.valid then InnerContent(t.value.n) else Text("")
  {
    match t
    case None => None
    case Some(d) =>
      if d.TimeValue? then Some(Put(CallSetValue(NativeTime(d.t))))
      else if Stringer(d).Some? then Some(Put(CallSetString(Stringer(d).value)))
      else if d.Wrapper? && (IsSql(d.n) || nulls) then
        Some(Blank(if d.n.valid then Some(InnerSetter(d.n)) else None))
      else None
  }

  /** The `default` branch for a concrete value: switch on its reflect kind.
      Text, signed integers and floats go through SetValue, bool through
      SetBool; every other kind (unsigned integers included) writes nothing. */
  function KindCase(d: Dyn): (r: Option<Write>)
    ensures r.Some? <==> d.Plain? && !(d.kind.UintKind? || d.kind.OtherKind?)
    ensures r.Some? ==> r.value.Put? && (r.value.op.CallSetBool? <==> d.kind.BoolKind?)
  {
    match d
    case Plain(_, StringKind(s)) => Some(Put(CallSetValue(NativeString(s))))
    case Plain(_, IntKind(i)) => Some(Put(CallSetValue(NativeInt(i))))
    case Plain(_, FloatKind(f)) => Some(Put(CallSetValue(NativeFloat(f))))
    case Plain(_, BoolKind(b)) => Some(Put(CallSetBool(b)))
    case _ => None
  }

  /** One pass of the setCell closure: write a cell, re-enter the closure on
      the dynamic value an interface element holds, or drop the element. */
  datatype Action = Emit(w: Write) | Unwrap(inner: Dyn) | Drop

  function SliceAction(val: Slot): (a: Action)
    requires NonNil(val)
    ensures a.Unwrap? ==> val == Iface(Some(a.inner))
  {
    match TypeCase(Held(val), false)
    case Some(w) => Emit(w)
    case None =>
      match val
      case Direct(d) => (match KindCase(d) case Some(w) => Emit(w) case None => Drop)
      case Iface(h) => Unwrap(h.value)
  }

  /** What setCell ends up writing for a slice element, unwrapping an
      interface element once. */
  function SliceWrite(val: Slot): (r: Option<Write>)
    requires NonNil(val)
    ensures r == match TypeCase(Held(val), false)
      case Some(w) => Some(w)
      case None => KindCase(Held(val).value)
    decreases if val.Iface? then 1 else 0
  {
    match SliceAction(val)
    case Emit(w) => Some(w)
    case Unwrap(d) => SliceWrite(Direct(d))
    case Drop => None
  }

  /** What the switch of WriteStruct writes for a field; it has no interface
      branch, so an interface field reaching `default` writes nothing. */
  function FieldWrite(val: Slot): (r: Option<Write>)
    ensures val.Direct? && !(val.d.Wrapper? && !IsSql(val.d.n)) ==> r == SliceWrite(val)
    ensures val.Iface? ==> r == TypeCase(val.held, true)
  {
    match TypeCase(Held(val), true)
    case Some(w) => Some(w)
    case None => if val.Direct? then KindCase(val.d) else None
  }

  /** time.Time implements fmt.Stringer, yet it is stored as a native time,
      whether it is held directly or in an interface, by either writer. */
  lemma TimeBeforeStringer(t: Time, shown: string, val: Slot)
    requires Held(val) == Some(TimeValue(t, shown))
    ensures Stringer(TimeValue(t, shown)) == Some(shown)
    ensures SliceWrite(val) == Some(Put(CallSetValue(NativeTime(t))))
    ensures FieldWrite(val) == Some(Put(CallSetValue(NativeTime(t))))
    ensures Render(FieldWrite(val).value) == Instant(t)
  {
  }

  /** A Stringer is written as its rendering, whatever its underlying kind. */
  lemma StringerBeforeKind(s: string, k: Kind, val: Slot)
    requires Held(val) == Some(Plain(Some(s), k))
    ensures SliceWrite(val) == Some(Put(CallSetString(s)))
    ensures FieldWrite(val) == Some(Put(CallSetString(s)))
  {
  }

  /** A nullable wrapper writes the empty string when it is not valid and its
      inner value when it is; in WriteSlice this holds for database/sql. */
  lemma NullableInSlice(n: Nullable, val: Slot)
    requires Held(val) == Some(Wrapper(n)) && IsSql(n)
    ensures SliceWrite(val).Some? && SliceWrite(val).value.Blank?
    ensures Render(SliceWrite(val).value) == if n.valid then InnerContent(n) else Text("")
  {
  }

  /** In WriteStruct it holds for both families. */
  lemma NullableInStruct(n: Nullable, val: Slot)
    requires Held(val) == Some(Wrapper(n))
    ensures FieldWrite(val).Some? && FieldWrite(val).value.Blank?
    ensures Render(FieldWrite(val).value) == if n.valid then InnerContent(n) else Text("")
  {
  }

  /** WriteSlice does not know the gobuffalo/nulls wrappers: they have kind
      struct and are dropped. */
  lemma NullsDroppedInSlice(n: Nullable)
    requires !IsSql(n)
    ensures SliceWrite(Direct(Wrapper(n))) == None
  {
  }

  /** A wrapper field writes "" and then, when valid, its inner value. */
  lemma WrapperField(n: Nullable)
    ensures FieldWrite(Direct(Wrapper(n))) == Some(Blank(if n.valid then Some(InnerSetter(n)) else None))
  {
  }

  /** In WriteStruct each gobuffalo/nulls wrapper makes the same setter calls
      as its database/sql counterpart (nulls.Int and nulls.Int64 like
      sql.NullInt64). */
  lemma NullsLikeSql(valid: bool, s: string, b: bool, i: int, f: Float)
    ensures FieldWrite(Direct(Wrapper(NullsString(valid, s)))) == FieldWrite(Direct(Wrapper(SqlNullString(valid, s))))
    ensures FieldWrite(Direct(Wrapper(NullsBool(valid, b)))) == FieldWrite(Direct(Wrapper(SqlNullBool(valid, b))))
    ensures FieldWrite(Direct(Wrapper(NullsInt(valid, i)))) == FieldWrite(Direct(Wrapper(SqlNullInt64(valid, i))))
    ensures FieldWrite(Direct(Wrapper(NullsInt64(valid, i)))) == FieldWrite(Direct(Wrapper(SqlNullInt64(valid, i))))
    ensures FieldWrite(Direct(Wrapper(NullsFloat64(valid, f)))) == FieldWrite(Direct(Wrapper(SqlNullFloat64(valid, f))))
  {
    WrapperField(NullsString(valid, s));
    WrapperField(SqlNullString(valid, s));
    WrapperField(NullsBool(valid, b));
    WrapperField(SqlNullBool(valid, b));
    WrapperField(NullsInt(valid, i));
    WrapperField(NullsInt64(valid, i));
    WrapperField(SqlNullInt64(valid, i));
    WrapperField(NullsFloat64(valid, f));
    WrapperField(SqlNullFloat64(valid, f));
  }

  /** A plain value of scalar kind is stored as its payload; unsigned and
      other kinds are written by neither writer. */
  lemma PlainByKind(k: Kind)
    ensures SliceWrite(Direct(Plain(None, k))) == FieldWrite(Direct(Plain(None, k)))
    ensures FieldWrite(Direct(Plain(None, k))).Some? <==> !(k.UintKind? || k.OtherKind?)
    ensures k.StringKind? ==> Render(FieldWrite(Direct(Plain(None, k))).value) == Text(k.s)
    ensures k.IntKind? ==> Render(FieldWrite(Direct(Plain(None, k))).value) == Integer(k.i)
    ensures k.FloatKind? ==> Render(FieldWrite(Direct(Plain(None, k))).value) == Number(k.f)
    ensures k.BoolKind? ==> Render(FieldWrite(Direct(Plain(None, k))).value) == Boolean(k.b)
  {
  }

  /** WriteSlice unwraps an interface element once and then treats it as the
      value it holds. */
  lemma SliceUnwrapsInterface(d: Dyn)
    ensures SliceWrite(Iface(Some(d))) == SliceWrite(Direct(d))
  {
  }

  /** WriteStruct has no interface branch: an interface field whose value
      matches none of the exact-type cases writes nothing, even when the same
      value held directly would be written. */
  lemma InterfaceFieldNotUnwrapped(d: Dyn)
    requires TypeCase(Some(d), true) == None
    ensures FieldWrite(Iface(Some(d))) == None
    ensures FieldWrite(Iface(None)) == None
    ensures FieldWrite(Direct(d)) == KindCase(d)
  {
  }

  /** So the two writers disagree on an interface holding a plain int. */
  lemma InterfaceIntExample(i: int)
    ensures SliceWrite(Iface(Some(Plain(None, IntKind(i))))) == Some(Put(CallSetValue(NativeInt(i))))
    ensures FieldWrite(Iface(Some(Plain(None, IntKind(i))))) == None
  {
  }
}
