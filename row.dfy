/** The row writers of write.go: Row.WriteSlice and Row.WriteStruct, which
    change the caller's row in place.  The rest of Row (AddCell, GetCell) and
    the Cell setters belong to the spreadsheet document model; they are given
    here with the contracts the writers rely on and the simplest bodies that
    meet them.  A cell is addressed by its position in the row. */
module Xlsx {
  import opened Values
  import opened Dispatch
  import opened Tags
  import opened Projection

  datatype Error = NotStructPointer | InvalidTag

  /** What the argument `e` points to. */
  datatype Target =
    | Nil                          // a nil pointer
    | SliceOf(elems: seq<Slot>)
    | StructOf(fields: seq<Field>)
    | OtherTarget                  // any other kind

  /** The `interface{}` argument of both writers. */
  datatype Arg = NotPointer | Pointer(to: Target)

  class Row {
    var cells: seq<Content>

    constructor ()
      ensures cells == []
    {
      cells := [];
    }

    /** Appends one empty cell and returns its position. */
    method AddCell() returns (cell: nat)
      modifies this
      ensures cell == |old(cells)| && cells == old(cells) + [Empty]
    {
      cell := |cells|;
      cells := cells + [Empty];
    }

    /** The cell at `pos`, adding empty cells up to it when the row is shorter. */
    method GetCell(pos: nat) returns (cell: nat)
      modifies this
      ensures cell == pos && cells == Grow(old(cells), pos)
    {
      cell := pos;
      cells := Grow(cells, pos);
    }

    method SetValue(cell: nat, v: Native)
      requires cell < |cells|
      modifies this
      ensures cells == old(cells)[cell := Stored(CallSetValue(v))]
    {
      cells := cells[cell := Stored(CallSetValue(v))];
    }

    method SetString(cell: nat, s: string)
      requires cell < |cells|
      modifies this
      ensures cells == old(cells)[cell := Text(s)]
    {
      cells := cells[cell := Text(s)];
    }

    method SetBool(cell: nat, b: bool)
      requires cell < |cells|
      modifies this
      ensures cells == old(cells)[cell := Boolean(b)]
    {
      cells := cells[cell := Boolean(b)];
    }

    /** Makes one setter call. */
    method Call(cell: nat, op: Setter)
      requires cell < |cells|
      modifies this
      ensures cells == old(cells)[cell := Stored(op)]
    {
      match op
      case CallSetValue(v) => SetValue(cell, v);
      case CallSetString(s) => SetString(cell, s);
      case CallSetBool(b) => SetBool(cell, b);
    }

    /** Makes the setter calls of one case of the type switch on one cell;
        only the last call's value remains. */
    method Perform(cell: nat, w: Write)
      requires cell < |cells|
      modifies this
      ensures cells == old(cells)[cell := Render(w)]
    {
      match w
      case Put(op) =>
        Call(cell, op);
      case Blank(andThen) =>
        SetString(cell, "");
        if andThen.Some? {
          Call(cell, andThen.value);
        }
    }

    /** The setCell closure of WriteSlice: appends the element's cell, or
        nothing for an unsupported type, re-entering itself once on the value
        an interface element holds. */
    method SetCell(val: Slot)
      requires NonNil(val)
      modifies this
      ensures cells == old(cells) + CellOf(val)
      decreases if val.Iface? then 1 else 0
    {
      match SliceAction(val)
      case Emit(w) =>
        var cell := AddCell();
        Perform(cell, w);
      case Unwrap(d) =>
        SetCell(Direct(d));
      case Drop =>
    }

    /** Writes the first elements of the slice `e` points to, one appended
        cell per supported element.  Returns 0 for `cols == 0` before looking
        at `e`, -1 when `e` does not point to a slice, and otherwise the number
        of elements visited, which counts unsupported ones too. */
    method WriteSlice(e: Arg, cols: int) returns (n: int)
      requires cols != 0 && e.Pointer? && e.to.SliceOf? ==>
        forall i | 0 <= i < Limit(|e.to.elems|, cols) :: NonNil(e.to.elems[i])
      modifies this
      ensures cols == 0 ==> n == 0 && cells == old(cells)
      ensures cols != 0 && !(e.Pointer? && e.to.SliceOf?) ==> n == -1 && cells == old(cells)
      ensures cols != 0 && e.Pointer? && e.to.SliceOf? ==>
        n == Limit(|e.to.elems|, cols) && cells == old(cells) + Appended(e.to.elems[..n])
    {
      if cols == 0 {
        return cols;
      }
      if !e.Pointer? {
        return -1;
      }
      if !e.to.SliceOf? {
        return -1;
      }
      var v := e.to.elems;
      var m := |v|;
      if cols < m && cols > 0 {
        m := cols;
      }
      assert m == Limit(|v|, cols);
      assert AllNonNil(v[..m]);
      var i := 0;
      while i < m
        invariant 0 <= i <= m
        invariant AllNonNil(v[i..m])
        invariant cells + Appended(v[i..m]) == old(cells) + Appended(v[..m])
      {
        ghost var before := cells;
        AppendedStep(v, i, m);
        SetCell(v[i]);
        ConcatAssoc(before, CellOf(v[i]), Appended(v[i + 1..m]));
        i := i + 1;
      }
      assert v[m..m] == [];
      return i;
    }

    /** The switch of WriteStruct for one field whose tag names column
        `pos`: writes the field's value through GetCell(pos), or reports that
        its type is not supported and leaves the row alone. */
    method PlaceField(pos: int, val: Slot) returns (written: bool)
      requires FieldWrite(val).Some? ==> pos >= 0
      modifies this
      ensures written == FieldWrite(val).Some?
      ensures cells == if written then Place(old(cells), pos, Render(FieldWrite(val).value)) else old(cells)
    {
      match FieldWrite(val)
      case Some(w) =>
        var cell := GetCell(pos);
        Perform(cell, w);
        written := true;
      case None =>
        written := false;
    }

    /** The loop body of WriteStruct for a field not tagged "-": reads the
        column from the tag with Atoi, asks to stop when it is not a number,
        and otherwise hands the field to PlaceField. */
    method ColumnField(f: Field) returns (stop: bool, written: bool)
      requires f.tag != "-"
      requires PlanOf(f).WriteAt? ==> PlanOf(f).col >= 0
      modifies this
      ensures stop <==> PlanOf(f) == BadTag
      ensures written <==> PlanOf(f).WriteAt?
      ensures cells == if stop then old(cells) else Step(old(cells), PlanOf(f))
    {
      var pos := Atoi(f.tag);
      if pos.None? {
        return true, false;
      }
      written := PlaceField(pos.value, f.value);
      stop := false;
    }

    /** Writes the first fields of the struct `e` points to, each at the
        column its `xlsx` tag names; fields tagged "-" are skipped.  Returns
        (0, None) for `cols == 0` before looking at `e`; (0, NotStructPointer)
        when `e` does not point to a struct; (0, InvalidTag) at the first field
        whose tag is neither "-" nor a number, keeping the writes already
        made; otherwise the number of fields written. */
    method WriteStruct(e: Arg, cols: int) returns (k: int, err: Option<Error>)
      requires cols != 0 ==> e.Pointer?
      requires cols != 0 && e.Pointer? && e.to.StructOf? ==>
        Placeable(Plans(e.to.fields[..Limit(|e.to.fields|, cols)]))
      modifies this
      ensures cols == 0 ==> k == 0 && err == None && cells == old(cells)
      ensures cols != 0 && !e.to.StructOf? ==> k == 0 && err == Some(NotStructPointer) && cells == old(cells)
      ensures cols != 0 && e.to.StructOf? ==>
        var ps := Plans(e.to.fields[..Limit(|e.to.fields|, cols)]);
        cells == Placed(old(cells), ps) &&
        if FirstBad(ps).Some? then k == 0 && err == Some(InvalidTag)
        else k == Counted(ps) && err == None
    {
      if cols == 0 {
        return cols, None;
      }
      if !e.to.StructOf? {
        return 0, Some(NotStructPointer);
      }
      var v := e.to.fields;
      var n := |v|;
      if cols < n && cols > 0 {
        n := cols;
      }
      ghost var ps := Plans(v[..n]);
      assert n == Limit(|v|, cols);
      k := 0;
      var i := 0;
      while i < n
        invariant 0 <= i <= n
        invariant NoBadBefore(ps, i)
        invariant k == Counted(ps[..i])
        invariant Placeable(ps[i..])
        invariant Placed(cells, ps[i..]) == Placed(old(cells), ps)
      {
        ghost var before := cells;
        PlansAt(v[..n], i);
        assert ps[i] == PlanOf(v[i]);
        PlaceableHead(ps, i);
        var idx := v[i].tag;
        if idx == "-" {
          assert ps[i] == Skipped;
          k := k - 1; // undone by the k + 1 every iteration ends with
        } else {
          var stop, written := ColumnField(v[i]);
          if stop {
            WalkStops(before, ps, i);
            return 0, Some(InvalidTag);
          }
          if !written {
            k := k - 1; // nothing written: undo the k + 1 to come
          }
        }
        assert ps[i] != BadTag && cells == Step(before, ps[i]);
        WalkStep(old(cells), before, ps, i);
        i, k := i + 1, k + 1;
      }
      WalkDone(cells, ps);
      return k, None;
    }
  }
}
