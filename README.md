# Row writers of the xlsx package, modelled in Dafny

This project models `write.go` of the Go `xlsx` package. The file holds two
methods of `Row`:

- `WriteSlice` takes a pointer to a slice. It appends one cell for each of
  the first `n` elements whose type it supports, for at most `cols` elements.
- `WriteStruct` takes a pointer to a struct. It writes each field into the
  column its `xlsx` struct tag names. It skips fields tagged `"-"`, stops with
  an error at the first tag that is not a number, and counts the fields it
  wrote.

The model has five modules.

- `Values` holds the data. Go reflection is replaced by a closed datatype:
  - `Dyn` is a dynamic value: `time.Time`, one of the nullable wrappers, or
    any other type with its optional `String()` rendering and its reflect kind.
  - `Slot` is a slice element or a struct field. It holds a value directly or
    through an interface.
  - `Content` is what a spreadsheet cell holds.
  - `Setter` is one call to `SetValue`, `SetString` or `SetBool`.
- `Dispatch` is the type switch as a pure classifier. For one value it decides
  which setter calls are made on one cell, or that the value is not written.
  The cases are tried in the source's order: `time.Time`, `fmt.Stringer`, the
  `database/sql` wrappers, the `gobuffalo/nulls` wrappers (struct only), the
  reflect kind, and the interface unwrap (slice only).
- `Tags` models `strconv.Atoi` and the meaning of an `xlsx` tag.
- `Projection` defines what each writer does to a row, as a function of its
  input, and proves properties about those functions:
  - `Appended` is the cells `WriteSlice` appends.
  - `Plans`, `Placed`, `Counted` and `FirstBad` give the cells, the count and
    the error of `WriteStruct`.
- `Xlsx` has the class `Row`. Its field `cells` is the row. Its methods are:
  - the row and cell operations the writers call, with the contracts the
    writers rely on;
  - the `setCell` closure;
  - `WriteSlice` and `WriteStruct`, each with its loop, proved against the
    `Projection` functions.

A cell is addressed by its position in the row. Each setter is a `Row` method
that takes that position.

Where the doc comments of `write.go` and its code disagree, the model follows
the code:

- For a target that is not a struct, `WriteStruct` returns 0 with
  `errNotStructPointer`. The comment above it says -1.
- `WriteSlice` returns the number of elements it visited, unsupported ones
  included. Its comment says "the number of columns written".

## Model

| member | source | states |
|---|---|---|
| Xlsx.Row.WriteSlice | write.go:17-88 | `cols == 0` returns 0 and leaves the row unchanged, before any shape check. A non-pointer, or a pointer to a non-slice, returns -1 and leaves the row unchanged. Otherwise it returns `Limit(len, cols)` and the row becomes the old row followed by `Appended` of the elements visited. |
| Xlsx.Row.SetCell | write.go:39-81 | The closure appends exactly `CellOf(val)` to the row: one cell for a supported value, none otherwise. It re-enters itself once on the value an interface holds. |
| Xlsx.Row.Perform | write.go:48-52 | Makes the setter calls of one switch case on one cell, such as `SetString("")` and then the inner setter of a valid wrapper. The cell ends with the last call's value and no other cell changes. |
| Xlsx.Row.PlaceField | write.go:124-189 | The switch of `WriteStruct` on one field with column `pos`. It writes either through `GetCell(pos)`, leaving `Place(row, pos, value)`, or reports an unsupported type and leaves the row unchanged. |
| Xlsx.Row.ColumnField | write.go:119-189 | A field not tagged `"-"`. It stops exactly when Atoi rejects the tag, leaving the row unchanged. It reports "written" exactly when the field's plan writes a cell. Otherwise the row takes one step of the walk. |
| Xlsx.Row.WriteStruct | write.go:94-193 | `cols == 0` gives `(0, nil)` with the row unchanged. A non-struct gives `(0, errNotStructPointer)` with the row unchanged. Otherwise the row becomes `Placed(old row, plans of the visited fields)`. With a bad tag the result is `(0, errInvalidTag)`; without one it is `(Counted, nil)`. |
| Projection.Limit | write.go:34-37 | The number of elements or fields visited. It equals `len` when `cols <= 0` or `cols >= len`, and `cols` when `0 < cols < len`. |
| Projection.CellOf | write.go:40-81 | The cells `setCell` appends for one element: at most one. There is exactly one iff `SliceWrite` supports the element, and it holds that write's value. |
| Projection.Appended | write.go:83-87 | The cells appended for a run of elements: each element's `CellOf`, in order. There are never more cells than elements. |
| Projection.AppendedLength | write.go:83-87 | The row grows by exactly the number of supported elements among those visited. |
| Projection.AppendedConcat | write.go:84-86 | The cells for two runs of elements are the first run's cells followed by the second's, so the cells keep source order. |
| Projection.AppendedAt | write.go:84-86 | A supported element's cell sits right after the cells of the elements before it, and holds that element's value. |
| Projection.SliceExample | write.go:68-79 | The slice `[]interface{}{1, uint(2), "a"}` gives the cells `[1, "a"]`. Each element is unwrapped once, and the uint is visited but not written. |
| Projection.PlanOfMeaning | write.go:111-189 | A field is skipped iff its tag is `"-"`. It stops the walk iff its tag is not a number. It is written iff its tag is a column and its value's type is supported, and then to that column with the switch's value. |
| Projection.PlanOf | write.go:111-189 | What the loop body does with one field. It is skipped iff its tag is `"-"`, a bad tag when Atoi rejects the tag, and otherwise written to the parsed column with the switch's value, or dropped when the type is not supported. |
| Projection.Plans | write.go:110-111 | The plans of the visited fields in order, one per field. |
| Projection.FirstBad | write.go:119-122 | Finds the first field whose tag is neither `"-"` nor a number. It is None iff there is no such field. When it is Some, no earlier field has a bad tag. |
| Projection.CountedCardinality | write.go:109-192 | The count `k` is the number of visited fields whose tag is a column and whose value's type is supported. Skipped fields and unsupported ones do not count. |
| Projection.Counted | write.go:109-192 | The counter `k`: one for each written plan, never more than the number of fields. |
| Projection.PlacedStopsAtBadTag | write.go:119-122 | At the first bad tag the walk stops. The row holds exactly the writes of the fields before it, and nothing after it is looked at. |
| Projection.Step | write.go:124-189 | The row after one reached field that is not a bad tag. A written field leaves `Place(row, col, value)` and any other field leaves the row as it was. The row never shrinks. |
| Projection.Placed | write.go:110-190 | The row after the loop. Fields are taken in order, one `Step` each, up to the first bad tag. The row never shrinks. |
| Projection.PlacedKeeps | write.go:114-117 | A cell that no reached field writes keeps its old content. This covers fields tagged `"-"` and fields of unsupported type. |
| Projection.PlacedLastWins | write.go:127-128 | Several reached fields may name one column. The cell holds the value of the last of them, and the row is long enough to hold it. |
| Projection.PlacedBeyond | write.go:127 | A padding cell past the old end of the row that no reached field writes is empty. |
| Projection.PlacedLength | write.go:127 | The final row is as long as the old row or one past the largest column a reached field writes, whichever is more. Every reached written column lies inside it. |
| Projection.Grow | write.go:127 | `GetCell(pos)` keeps the row and extends it with empty cells up to position `pos` when it is shorter. |
| Projection.Place | write.go:127-128 | Writing `x` through `GetCell(p)`. The row is extended to cover `p` and cell `p` holds `x`. Every other old cell keeps its content, and every other new cell is empty. |
| Projection.StructExample | write.go:109-192 | Fields tagged `"0"`, `"1"` and `"-"` write two cells, skip the third field and count 2. |
| Projection.BadTagExample | write.go:119-122 | A bad tag after a written field is reported as an error, and the cell written before it stays. |
| Tags.Atoi | write.go:119 | A parsed value is within the 64-bit int range and the string ends in a digit. |
| Tags.AtoiItoa | write.go:119 | Atoi reads back every int written in decimal. |
| Tags.AtoiOverflow | write.go:119-122 | A decimal number just outside the int range, on either side, is an error. It does not wrap. |
| Tags.ParseTag | write.go:112-122 | A tag means skip iff it is `"-"`. It is invalid iff it is not `"-"` and Atoi rejects it. Otherwise it is the column Atoi reads. |
| Tags.ColumnTagRoundTrip | write.go:119 | Every column number written in decimal is read back as that column. |
| Tags.TagExamples | write.go:112-122 | The empty tag, `"xyz"`, `"1_0"`, `"+"` and `" 1"` are invalid. `"-"` skips. `"0"`, `"12"`, `"+7"` and `"-3"` are the columns 0, 12, 7 and -3. |
| Dispatch.SliceAction | write.go:41-80 | One pass of `setCell`. It unwraps only an interface element, and then continues with the value the element holds. |
| Dispatch.TypeCase | write.go:41-67 | The exact-type cases match iff the value is a `time.Time`, a `Stringer`, or a wrapper of a family the writer knows. A wrapper leaves `""` when not valid and its inner content when valid. |
| Dispatch.KindCase | write.go:68-76 | The kind switch writes iff the value is plain and of kind string, signed int, float or bool. The write uses `SetBool` exactly for a bool. |
| Dispatch.SliceWrite | write.go:41-80 | What `setCell` writes for an element: the exact-type cases on the value the element holds, then the kind switch on that value. An interface element is treated as its held value. |
| Dispatch.FieldWrite | write.go:125-189 | What the struct switch writes for a field. A direct value that is not a `nulls` wrapper is written exactly as `WriteSlice` would write it, and an interface field only through an exact-type case. |
| Dispatch.TimeBeforeStringer | write.go:42-47 | A `time.Time` implements `fmt.Stringer`, yet both writers store it as a native time. It is never stored as its string. |
| Dispatch.StringerBeforeKind | write.go:45-47 | A `Stringer` is written as its `String()`, whatever its kind. |
| Dispatch.NullableInSlice | write.go:48-67 | In `WriteSlice` a `database/sql` wrapper leaves `""` when not valid and its inner value when valid. |
| Dispatch.NullableInStruct | write.go:132-176 | In `WriteStruct` the same holds for both wrapper families. |
| Dispatch.NullsDroppedInSlice | write.go:68-79 | `WriteSlice` does not know the `gobuffalo/nulls` wrappers. They have kind struct and write nothing. |
| Dispatch.NullsLikeSql | write.go:152-176 | Each `nulls` wrapper makes the same setter calls as its `sql.Null*` counterpart. |
| Dispatch.PlainByKind | write.go:69-76 | A plain value of kind string, int or float is stored through `SetValue`, and a bool through `SetBool`. Unsigned and other kinds are written by neither writer, and the two writers agree on plain values. |
| Dispatch.SliceUnwrapsInterface | write.go:77-78 | An interface element is written as the value it holds. |
| Dispatch.InterfaceFieldNotUnwrapped | write.go:177-188 | An interface field that matches no exact-type case writes nothing in `WriteStruct`. The same value held directly is switched on its kind. |
| Dispatch.InterfaceIntExample | write.go:77-78 | An interface holding an int is written by `WriteSlice` but not by `WriteStruct`. |

## Left out

- A `Target.SliceOf` is any sequence of slots, so it can mix direct and interface elements and elements of different kinds. A Go slice has one static element type, so every element is direct of that type, or every element is an interface. The lemmas about all inputs therefore cover more slices than Go can build.
- Go reflection (`reflect.ValueOf`, `Kind`, `Elem`, `Interface`, `NumField`, `Field`) is not modelled. The argument and its elements or fields are given as values of the closed datatypes `Arg`, `Target`, `Slot` and `Dyn`.
- The Row and Cell implementations (`AddCell`, `GetCell`, `SetValue`, `SetString`, `SetBool`) are not part of this model. `Xlsx.Row` gives them assumed contracts: `AddCell` appends one empty cell, `GetCell` extends the row with empty cells up to the position, and each setter overwrites the cell, so the last one wins.
- Xlsx.Row.SetValue: stores a string, integer, float or time as that payload, whatever named type it has. The conversions the real `SetValue` makes, and its number formats, are not modelled.
- Floating-point numbers, `time.Time` values and `String()` renderings are opaque payloads. They are copied into cells unchanged.
- The widths of Go's integer kinds (int8 to int64) are not told apart. Integer payloads are unbounded. Only Atoi's range check uses the 64-bit bounds.
- Dispatch.TypeCase: assumes none of the nullable wrapper types implements `fmt.Stringer`. If one did, it would match the `Stringer` case first.
- Xlsx.Row.WriteStruct: requires `e` to be a pointer when `cols != 0`, because `reflect.ValueOf(e).Elem()` panics on any other value. It also requires that no field reached before a bad tag is written to a negative column, because `GetCell` cannot address one and Atoi accepts `"-3"`.
- Xlsx.Row.WriteSlice: requires the visited interface elements to be non-nil, because unwrapping a nil interface panics.
- The panic of `t.(bool)` on a value of a named bool type is not modelled. `BoolKind` stands for the predeclared `bool`.
- The panic of `Interface()` on an unexported struct field is not modelled. All fields are treated as exported.
- The parsing of the struct tag string by `Tag.Get("xlsx")` is not modelled. A `Field` carries the value of its `xlsx` key, or `""` when the key is absent.
- A cell is identified by its position in the row instead of a pointer. Aliasing between cells is not modelled.
