/** The values the writer sees and the cells it produces.

    Go reflection is replaced by a closed description of a dynamic value: the
    facts the type switch of write.go asks about (its exact type, whether it
    implements fmt.Stringer, its reflect kind) and the payload that gets copied
    into a cell.  Floating-point numbers and time.Time values are opaque
    payloads: they are copied unchanged and never computed with. */
module Values {

  datatype Option<T> = None | Some(value: T)

  /** A floating-point payload, kept as its IEEE 754 bit pattern. */
  datatype Float = Float32(bits32: bv32) | Float64(bits64: bv64)

  /** A time.Time payload: seconds, nanoseconds and location name. */
  datatype Time = Time(sec: int, nsec: int, location: string)

  /** What reflect.Value.Kind reports for a concrete (non-interface) value,
      with the payload the kind carries. */
  datatype Kind =
    | StringKind(s: string)    // reflect.String
    | IntKind(i: int)          // reflect.Int, Int8, Int16, Int32, Int64
    | UintKind(u: nat)         // reflect.Uint, Uint8, ..., Uint64, Uintptr
    | FloatKind(f: Float)      // reflect.Float32, Float64
    | BoolKind(b: bool)        // reflect.Bool, the predeclared bool type
    | OtherKind                // struct, pointer, slice, map, complex, chan, func, ...

  /** The nullable wrapper types the writer recognises by exact type: four from
      database/sql and five from github.com/gobuffalo/nulls.  None of them has
      a String method. */
  datatype Nullable =
    | SqlNullString(valid: bool, text: string)
    | SqlNullBool(valid: bool, flag: bool)
    | SqlNullInt64(valid: bool, integer: int)
    | SqlNullFloat64(valid: bool, floating: Float)
    | NullsString(valid: bool, text: string)
    | NullsBool(valid: bool, flag: bool)
    | NullsInt(valid: bool, integer: int)
    | NullsInt64(valid: bool, integer: int)
    | NullsFloat64(valid: bool, floating: Float)

  /** True for the database/sql family. */
  predicate IsSql(n: Nullable) {
    n.SqlNullString? || n.SqlNullBool? || n.SqlNullInt64? || n.SqlNullFloat64?
  }

  /** A concrete dynamic value, that is, what Value.Interface() hands to the type switch. */
  datatype Dyn =
    | TimeValue(t: Time, shown: string)           // time.Time; its String method renders `shown`
    | Wrapper(n: Nullable)                        // one of the nullable wrappers (kind struct)
    | Plain(stringer: Option<string>, kind: Kind) // any other type; `stringer` is its String() if it has one

  /** The rendering of `d` by fmt.Stringer, if its type implements that interface. */
  function Stringer(d: Dyn): Option<string> {
    match d
    case TimeValue(_, shown) => Some(shown)
    case Wrapper(_) => None
    case Plain(stringer, _) => stringer
  }

  /** A reflect.Value as the writer receives it: a slice element or a struct
      field.  An element or field of interface type has kind
      reflect.Interface and holds a dynamic value, or nothing when it is nil. */
  datatype Slot = Direct(d: Dyn) | Iface(held: Option<Dyn>)

  /** What Value.Interface() returns for the slot; None is Go's nil. */
  function Held(v: Slot): Option<Dyn> {
    match v
    case Direct(d) => Some(d)
    case Iface(h) => h
  }

  /** False for a nil interface slot. */
  predicate NonNil(v: Slot) {
    v.Direct? || v.held.Some?
  }

  /** The content of one spreadsheet cell. */
  datatype Content =
    | Empty
    | Text(s: string)
    | Boolean(b: bool)
    | Integer(i: int)
    | Number(f: Float)
    | Instant(t: Time)

  /** A value handed to Cell.SetValue. */
  datatype Native =
    | NativeString(s: string)
    | NativeInt(i: int)
    | NativeFloat(f: Float)
    | NativeTime(t: Time)

  /** One call of a Cell setter. */
  datatype Setter =
    | CallSetValue(v: Native)
    | CallSetString(s: string)
    | CallSetBool(b: bool)

  /** The setter calls one case of the type switch makes on its cell: a single
      call, or, for a nullable wrapper, SetString("") followed by the inner
      value's setter when the wrapper is valid. */
  datatype Write = Put(op: Setter) | Blank(andThen: Option<Setter>)

  /** The content a setter leaves in a cell, whatever the cell held before. */
  function Stored(op: Setter): Content {
    match op
    case CallSetValue(NativeString(s)) => Text(s)
    case CallSetValue(NativeInt(i)) => Integer(i)
    case CallSetValue(NativeFloat(f)) => Number(f)
    case CallSetValue(NativeTime(t)) => Instant(t)
    case CallSetString(s) => Text(s)
    case CallSetBool(b) => Boolean(b)
  }

  /** The content a write leaves in its cell: the last setter call wins. */
  function Render(w: Write): Content {
    match w
    case Put(op) => Stored(op)
    case Blank(None) => Text("")
    case Blank(Some(op)) => Stored(op)
  }
}
