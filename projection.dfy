/** What the two writers of write.go do to a row, as functions of the input:
    the cells WriteSlice appends, and the cells, count and error WriteStruct
    produces.  The methods of Xlsx.Row are proved against these, and the
    lemmas here state what the source promises about them. */
module Projection {
  import opened Values
  import opened Dispatch
  import opened Tags

  /** The number of elements or fields a writer visits: all `len` of them
      unless `cols` is a positive limit below `len`. */
  function Limit(len: nat, cols: int): (n: nat)
    ensures n <= len
    ensures cols <= 0 ==> n == len
    ensures cols > 0 ==> n <= cols && (n == len || n == cols)
  {
    if cols < len && cols > 0 then cols else len
  }

  // ---------------------------------------------------------------------
  // WriteSlice

  predicate AllNonNil(xs: seq<Slot>) {
    forall i | 0 <= i < |xs| :: NonNil(xs[i])
  }

  /** The cell setCell appends for one element: one, or none when the
      element's type is not supported. */
  function CellOf(val: Slot): (r: seq<Content>)
    requires NonNil(val)
    ensures |r| <= 1 && (|r| == 1 <==> SliceWrite(val).Some?)
    ensures |r| == 1 ==> r[0] == Render(SliceWrite(val).value)
  {
    match SliceWrite(val)
    case Some(w) => [Render(w)]
    case None => []
  }

  /** The cells appended for a run of elements, in order. */
  function Appended(xs: seq<Slot>): (r: seq<Content>)
    requires AllNonNil(xs)
    ensures |r| <= |xs|
  {
    if xs == [] then [] else CellOf(xs[0]) + Appended(xs[1..])
  }

  /** Regrouping of appended cells, used by WriteSlice's loop: keeping it in
      its own lemma keeps the loop's proof small. */
  lemma ConcatAssoc(a: seq<Content>, b: seq<Content>, c: seq<Content>)
    ensures (a + b) + c == a + (b + c)
  {
  }

  /** One step of setCell's loop: element i contributes its cell ahead of
      the rest of the run. */
  lemma AppendedStep(xs: seq<Slot>, i: nat, m: nat)
    requires i < m <= |xs| && AllNonNil(xs[i..m])
    ensures NonNil(xs[i]) && AllNonNil(xs[i + 1..m])
    ensures Appended(xs[i..m]) == CellOf(xs[i]) + Appended(xs[i + 1..m])
  {
    assert xs[i..m][0] == xs[i] && xs[i..m][1..] == xs[i + 1..m];
  }

  /** The indices of the elements that produce a cell. */
  function Supported(xs: seq<Slot>): set<int>
    requires AllNonNil(xs)
  {
    set i | 0 <= i < |xs| && SliceWrite(xs[i]).Some?
  }

  /** Appending is elementwise and keeps source order. */
  lemma {:induction false} AppendedConcat(xs: seq<Slot>, ys: seq<Slot>)
    requires AllNonNil(xs) && AllNonNil(ys)
    ensures AllNonNil(xs + ys)
    ensures Appended(xs + ys) == Appended(xs) + Appended(ys)
  {
    if xs != [] {
      assert (xs + ys)[0] == xs[0];
      assert (xs + ys)[1..] == xs[1..] + ys;
      AppendedConcat(xs[1..], ys);
      calc {
        Appended(xs + ys);
        CellOf(xs[0]) + Appended(xs[1..] + ys);
        CellOf(xs[0]) + (Appended(xs[1..]) + Appended(ys));
        (CellOf(xs[0]) + Appended(xs[1..])) + Appended(ys);
      }
    } else {
      assert xs + ys == ys;
    }
  }

  lemma SupportedSnoc(xs: seq<Slot>)
    requires AllNonNil(xs) && |xs| > 0
    ensures var m := |xs| - 1;
      |Supported(xs)| == |Supported(xs[..m])| + (if SliceWrite(xs[m]).Some? then 1 else 0)
  {
    var m := |xs| - 1;
    var extra: set<int> := if SliceWrite(xs[m]).Some? then {m} else {};
    forall i | 0 <= i < m ensures (i in Supported(xs)) <==> (i in Supported(xs[..m])) {
      assert xs[..m][i] == xs[i];
    }
    assert Supported(xs) == Supported(xs[..m]) + extra;
    assert m !in Supported(xs[..m]);
  }

  /** The row grows by exactly the number of supported elements. */
  lemma {:induction false} AppendedLength(xs: seq<Slot>)
    requires AllNonNil(xs)
    ensures |Appended(xs)| == |Supported(xs)|
  {
    if xs != [] {
      var m := |xs| - 1;
      AppendedLength(xs[..m]);
      AppendedConcat(xs[..m], [xs[m]]);
      assert xs[..m] + [xs[m]] == xs;
      assert [xs[m]][1..] == [];
      SupportedSnoc(xs);
    }
  }

  /** A supported element's cell comes right after the cells of the elements
      before it. */
  lemma AppendedAt(xs: seq<Slot>, j: nat)
    requires AllNonNil(xs) && j < |xs| && SliceWrite(xs[j]).Some?
    ensures |Appended(xs[..j])| < |Appended(xs)|
    ensures Appended(xs)[|Appended(xs[..j])|] == Render(SliceWrite(xs[j]).value)
  {
    assert xs == xs[..j] + xs[j..];
    AppendedConcat(xs[..j], xs[j..]);
  }

  // ---------------------------------------------------------------------
  // WriteStruct

  /** A struct field: the value of its `xlsx` tag key ("" when the key is
      absent) and its value. */
  datatype Field = Field(tag: string, value: Slot)

  /** What WriteStruct does with one field it reaches. */
  datatype Plan =
    | Skipped                          // tagged "-": nothing written, not counted
    | BadTag                           // neither "-" nor a number: stop with errInvalidTag
    | Dropped(col: int)                // a column, but a type the switch does not know
    | WriteAt(col: int, x: Content)    // a column and a supported value: written and counted

  /** The plan follows the branches of the loop body: the skip marker,
      then Atoi, then the type switch. */
  function PlanOf(f: Field): (p: Plan)
    ensures p == Skipped <==> f.tag == "-"
  {
    if f.tag == "-" then Skipped
    else match Atoi(f.tag)
      case None => BadTag
      case Some(pos) =>
        match FieldWrite(f.value)
        case Some(w) => WriteAt(pos, Render(w))
        case None => Dropped(pos)
  }

  /** A field is skipped exactly when tagged "-", stops the walk exactly when
      its tag is not a number, and is written exactly when its tag is a
      column and its value of a supported type, to that column. */
  lemma PlanOfMeaning(f: Field)
    ensures PlanOf(f) == Skipped <==> ParseTag(f.tag) == Skip
    ensures PlanOf(f) == BadTag <==> ParseTag(f.tag) == Invalid
    ensures PlanOf(f).WriteAt? <==> ParseTag(f.tag).Column? && FieldWrite(f.value).Some?
    ensures PlanOf(f).WriteAt? ==>
      ParseTag(f.tag) == Column(PlanOf(f).col) && PlanOf(f).x == Render(FieldWrite(f.value).value)
    ensures PlanOf(f).Dropped? ==> ParseTag(f.tag) == Column(PlanOf(f).col)
  {
  }

  /** The plan of every field, in order. */
  function Plans(fs: seq<Field>): (ps: seq<Plan>)
    ensures |ps| == |fs|
  {
    if fs == [] then [] else Plans(fs[..|fs| - 1]) + [PlanOf(fs[|fs| - 1])]
  }

  lemma {:induction false} PlansAt(fs: seq<Field>, i: nat)
    requires i < |fs|
    ensures Plans(fs)[i] == PlanOf(fs[i])
    decreases |fs|
  {
    if i < |fs| - 1 {
      PlansAt(fs[..|fs| - 1], i);
    }
  }

  predicate NoBadBefore(ps: seq<Plan>, i: int)
    requires i <= |ps|
  {
    forall j | 0 <= j < i :: ps[j] != BadTag
  }

  /** The position of the first bad tag. */
  function FirstBad(ps: seq<Plan>): (r: Option<nat>)
    ensures r.None? <==> forall i | 0 <= i < |ps| :: ps[i] != BadTag
    ensures r.Some? ==> r.value < |ps| && ps[r.value] == BadTag && NoBadBefore(ps, r.value)
  {
    if ps == [] then None
    else if ps[0] == BadTag then Some(0)
    else match FirstBad(ps[1..])
      case Some(j) => Some(j + 1)
      case None => None
  }

  /** The number of fields written. */
  function Counted(ps: seq<Plan>): (n: nat)
    ensures n <= |ps|
  {
    if ps == [] then 0
    else Counted(ps[..|ps| - 1]) + (if ps[|ps| - 1].WriteAt? then 1 else 0)
  }

  function WrittenAt(ps: seq<Plan>): set<int> {
    set i | 0 <= i < |ps| && ps[i].WriteAt?
  }

  lemma {:induction false} CountedIsWrittenAt(ps: seq<Plan>)
    ensures Counted(ps) == |WrittenAt(ps)|
  {
    if ps != [] {
      var m := |ps| - 1;
      var init := ps[..m];
      CountedIsWrittenAt(init);
      var extra: set<int> := if ps[m].WriteAt? then {m} else {};
      assert WrittenAt(ps) == WrittenAt(init) + extra;
    }
  }

  /** The positions of the fields that are written: neither skipped, nor
      badly tagged, nor of an unsupported type. */
  function CountedFields(fs: seq<Field>): set<int> {
    set i | 0 <= i < |fs| && ParseTag(fs[i].tag).Column? && FieldWrite(fs[i].value).Some?
  }

  /** The count WriteStruct returns is the number of fields written. */
  lemma CountedCardinality(fs: seq<Field>)
    ensures Counted(Plans(fs)) == |CountedFields(fs)|
  {
    CountedIsWrittenAt(Plans(fs));
    forall i | 0 <= i < |fs|
      ensures Plans(fs)[i].WriteAt? <==> ParseTag(fs[i].tag).Column? && FieldWrite(fs[i].value).Some?
    {
      PlansAt(fs, i);
      PlanOfMeaning(fs[i]);
    }
    assert WrittenAt(Plans(fs)) == CountedFields(fs);
  }

  /** One more field adds one to the count if it is written. */
  lemma CountedSnoc(ps: seq<Plan>, i: nat)
    requires i < |ps|
    ensures Counted(ps[..i + 1]) == Counted(ps[..i]) + (if ps[i].WriteAt? then 1 else 0)
  {
    assert ps[..i + 1][..i] == ps[..i];
  }

  /** Every field WriteStruct reaches and writes names a column GetCell can
      address (Go panics on a negative one). */
  predicate Placeable(ps: seq<Plan>) {
    forall i | 0 <= i < |ps| && ps[i].WriteAt? && NoBadBefore(ps, i) :: ps[i].col >= 0
  }

  /** Past a plan that is not a bad tag, "no bad tag before" shifts by one. */
  lemma NoBadShift(ps: seq<Plan>, i: int)
    requires |ps| > 0 && ps[0] != BadTag && 0 <= i < |ps|
    ensures NoBadBefore(ps[1..], i) <==> NoBadBefore(ps, i + 1)
  {
    if NoBadBefore(ps[1..], i) {
      forall k | 0 <= k < i + 1 ensures ps[k] != BadTag {
        if k > 0 { assert ps[k] == ps[1..][k - 1]; }
      }
    }
  }

  /** The row after GetCell(p): extended with empty cells up to position p. */
  function Grow(c: seq<Content>, p: nat): (r: seq<Content>)
    ensures |r| == if p < |c| then |c| else p + 1
    ensures r[..|c|] == c
    ensures forall q | |c| <= q < |r| :: r[q] == Empty
  {
    if p < |c| then c else c + seq(p + 1 - |c|, _ => Empty)
  }

  /** The row after writing `x` through GetCell(p). */
  function Place(c: seq<Content>, p: nat, x: Content): (r: seq<Content>)
    ensures |r| == if p < |c| then |c| else p + 1
    ensures r[p] == x
    ensures forall q | 0 <= q < |c| && q != p :: r[q] == c[q]
    ensures forall q | |c| <= q < |r| && q != p :: r[q] == Empty
  {
    Grow(c, p)[p := x]
  }

  /** The row after one field that is not a bad tag. */
  function Step(c: seq<Content>, p: Plan): (r: seq<Content>)
    requires p.WriteAt? ==> p.col >= 0
    ensures |r| >= |c|
  {
    if p.WriteAt? then Place(c, p.col, p.x) else c
  }

  /** One iteration of WriteStruct's loop over a field that is not a bad tag. */
  lemma PlaceableTail(ps: seq<Plan>)
    requires Placeable(ps) && |ps| > 0 && ps[0] != BadTag
    ensures ps[0].WriteAt? ==> ps[0].col >= 0
    ensures Placeable(ps[1..])
  {
    assert NoBadBefore(ps, 0);
    forall i | 0 <= i < |ps| - 1 && ps[1..][i].WriteAt? && NoBadBefore(ps[1..], i)
      ensures ps[1..][i].col >= 0
    {
      NoBadShift(ps, i);
    }
  }

  /** The row after WriteStruct's loop, which stops at the first bad tag and
      keeps the writes made before it. */
  function Placed(c: seq<Content>, ps: seq<Plan>): (r: seq<Content>)
    requires Placeable(ps)
    ensures |r| >= |c|
    decreases |ps|
  {
    if ps == [] || ps[0] == BadTag then c
    else PlaceableTail(ps); Placed(Step(c, ps[0]), ps[1..])
  }

  /** The field a walk has reached, if written, names a column GetCell can address. */
  lemma PlaceableHead(ps: seq<Plan>, i: nat)
    requires i < |ps| && Placeable(ps[i..])
    ensures ps[i].WriteAt? ==> ps[i].col >= 0
  {
    assert ps[i..][0] == ps[i] && NoBadBefore(ps[i..], 0);
  }

  /** One iteration of WriteStruct's loop at field i, which is reached and
      is not a bad tag: the walk and the count advance by that field. */
  lemma WalkStep(c0: seq<Content>, c: seq<Content>, ps: seq<Plan>, i: nat)
    requires i < |ps| && ps[i] != BadTag && NoBadBefore(ps, i) && Placeable(ps[i..])
    requires Placeable(ps) && Placed(c, ps[i..]) == Placed(c0, ps)
    ensures NoBadBefore(ps, i + 1) && Placeable(ps[i + 1..])
    ensures Placed(Step(c, ps[i]), ps[i + 1..]) == Placed(c0, ps)
    ensures Counted(ps[..i + 1]) == Counted(ps[..i]) + (if ps[i].WriteAt? then 1 else 0)
  {
    assert ps[i..][0] == ps[i] && ps[i..][1..] == ps[i + 1..];
    PlaceableTail(ps[i..]);
    CountedSnoc(ps, i);
  }

  /** WriteStruct's loop stopping at a bad tag at field i: the rest of the
      walk adds nothing, and the struct has a first bad tag. */
  lemma WalkStops(c: seq<Content>, ps: seq<Plan>, i: nat)
    requires i < |ps| && ps[i] == BadTag && Placeable(ps[i..])
    ensures Placed(c, ps[i..]) == c
    ensures FirstBad(ps).Some?
  {
    assert ps[i..][0] == BadTag;
  }

  /** WriteStruct's loop running past the last field without a bad tag. */
  lemma WalkDone(c: seq<Content>, ps: seq<Plan>)
    requires NoBadBefore(ps, |ps|)
    ensures Placeable(ps[|ps|..]) && Placed(c, ps[|ps|..]) == c
    ensures FirstBad(ps).None? && Counted(ps[..|ps|]) == Counted(ps)
  {
    assert ps[|ps|..] == [] && ps[..|ps|] == ps;
  }

  /** Placeable holds of every prefix. */
  lemma PlaceablePrefix(ps: seq<Plan>, j: nat)
    requires Placeable(ps) && j <= |ps|
    ensures Placeable(ps[..j])
  {
    forall i | 0 <= i < j && ps[..j][i].WriteAt? && NoBadBefore(ps[..j], i)
      ensures ps[..j][i].col >= 0
    {
      assert NoBadBefore(ps, i) by {
        forall k | 0 <= k < i ensures ps[k] != BadTag { assert ps[k] == ps[..j][k]; }
      }
    }
  }

  /** A bad tag ends the walk: the row holds the writes of the fields before
      it, and nothing after it is looked at. */
  lemma {:induction false} PlacedStopsAtBadTag(c: seq<Content>, ps: seq<Plan>, j: nat)
    requires Placeable(ps) && FirstBad(ps) == Some(j)
    ensures Placeable(ps[..j])
    ensures Placed(c, ps) == Placed(c, ps[..j])
    decreases j
  {
    PlaceablePrefix(ps, j);
    if j > 0 {
      PlaceableTail(ps);
      assert FirstBad(ps[1..]) == Some(j - 1);
      assert ps[..j][1..] == ps[1..][..j - 1];
      PlacedStopsAtBadTag(Step(c, ps[0]), ps[1..], j - 1);
    }
  }

  /** True if field i is reached and written. */
  predicate ReachedWrite(ps: seq<Plan>, i: int)
    requires 0 <= i < |ps|
  {
    ps[i].WriteAt? && NoBadBefore(ps, i)
  }

  /** True if field i is reached and written to column q. */
  predicate WritesTo(ps: seq<Plan>, i: int, q: int)
    requires 0 <= i < |ps|
  {
    ReachedWrite(ps, i) && ps[i].col == q
  }

  lemma WritesToShift(ps: seq<Plan>, i: int, q: int)
    requires |ps| > 0 && ps[0] != BadTag && 0 <= i < |ps| - 1
    ensures WritesTo(ps[1..], i, q) <==> WritesTo(ps, i + 1, q)
  {
    NoBadShift(ps, i);
  }

  /** A cell that no reached field is written to keeps its content; in
      particular fields tagged "-" and fields of unsupported type write
      nothing. */
  lemma {:induction false} PlacedKeeps(c: seq<Content>, ps: seq<Plan>, q: nat)
    requires Placeable(ps) && q < |c|
    requires forall i | 0 <= i < |ps| :: !WritesTo(ps, i, q)
    ensures Placed(c, ps)[q] == c[q]
    decreases |ps|
  {
    if ps != [] && ps[0] != BadTag {
      PlaceableTail(ps);
      forall i | 0 <= i < |ps| - 1 ensures !WritesTo(ps[1..], i, q) {
        WritesToShift(ps, i, q);
      }
      assert NoBadBefore(ps, 0) && !WritesTo(ps, 0, q);
      PlacedKeeps(Step(c, ps[0]), ps[1..], q);
    }
  }

  /** A padding cell that GetCell added past the old end of the row, and
      that no reached field is written to, is empty. */
  lemma {:induction false} PlacedBeyond(c: seq<Content>, ps: seq<Plan>, q: nat)
    requires Placeable(ps) && |c| <= q < |Placed(c, ps)|
    requires forall i | 0 <= i < |ps| :: !WritesTo(ps, i, q)
    ensures Placed(c, ps)[q] == Empty
    decreases |ps|
  {
    if ps != [] && ps[0] != BadTag {
      PlaceableTail(ps);
      forall i | 0 <= i < |ps| - 1 ensures !WritesTo(ps[1..], i, q) {
        WritesToShift(ps, i, q);
      }
      assert NoBadBefore(ps, 0) && !WritesTo(ps, 0, q);
      var c1 := Step(c, ps[0]);
      if q < |c1| {
        assert c1[q] == Empty;
        PlacedKeeps(c1, ps[1..], q);
      } else {
        PlacedBeyond(c1, ps[1..], q);
      }
    }
  }

  /** The row WriteStruct leaves is as long as the old row, or one past the
      largest column a reached field is written to, whichever is more. */
  lemma {:induction false} PlacedLength(c: seq<Content>, ps: seq<Plan>)
    requires Placeable(ps)
    ensures forall i | 0 <= i < |ps| && ReachedWrite(ps, i) :: ps[i].col < |Placed(c, ps)|
    ensures |Placed(c, ps)| == |c| ||
      exists i | 0 <= i < |ps| && ReachedWrite(ps, i) :: ps[i].col + 1 == |Placed(c, ps)|
    decreases |ps|
  {
    if ps != [] && ps[0] != BadTag {
      PlaceableTail(ps);
      var c1 := Step(c, ps[0]);
      var r := Placed(c, ps);
      assert r == Placed(c1, ps[1..]);
      PlacedLength(c1, ps[1..]);
      forall i | 0 <= i < |ps| && ReachedWrite(ps, i) ensures ps[i].col < |r| {
        if i > 0 {
          NoBadShift(ps, i - 1);
          assert ps[1..][i - 1] == ps[i] && ReachedWrite(ps[1..], i - 1);
        }
      }
      if |r| != |c| {
        assert NoBadBefore(ps, 0);
        if |r| == |c1| {
          assert ReachedWrite(ps, 0) && ps[0].col + 1 == |r|;
        } else {
          var j :| 0 <= j < |ps| - 1 && ReachedWrite(ps[1..], j) && ps[1..][j].col + 1 == |r|;
          NoBadShift(ps, j);
          assert ps[1..][j] == ps[j + 1] && ReachedWrite(ps, j + 1);
        }
      }
    }
  }

  /** Of several reached fields written to one column, the last one's value
      is what the cell holds. */
  lemma {:induction false} PlacedLastWins(c: seq<Content>, ps: seq<Plan>, j: nat)
    requires Placeable(ps) && j < |ps| && ps[j].WriteAt? && NoBadBefore(ps, j)
    requires forall i | j < i < |ps| :: !WritesTo(ps, i, ps[j].col)
    ensures 0 <= ps[j].col < |Placed(c, ps)|
    ensures Placed(c, ps)[ps[j].col] == ps[j].x
    decreases j
  {
    var q := ps[j].col;
    assert ps[0] != BadTag;
    PlaceableTail(ps);
    forall i | j <= i < |ps| - 1 ensures !WritesTo(ps[1..], i, q) {
      WritesToShift(ps, i, q);
    }
    if j == 0 {
      PlacedKeeps(Step(c, ps[0]), ps[1..], q);
    } else {
      assert ps[1..][j - 1] == ps[j];
      NoBadShift(ps, j - 1);
      PlacedLastWins(Step(c, ps[0]), ps[1..], j - 1);
    }
  }

  // ---------------------------------------------------------------------
  // Examples

  /** The slice []interface{}{1, uint(2), "a"}: each element is unwrapped
      once, and the uint is visited but writes nothing. */
  lemma SliceExample()
    ensures var xs := [Iface(Some(Plain(None, IntKind(1)))), Iface(Some(Plain(None, UintKind(2)))),
                       Iface(Some(Plain(None, StringKind("a"))))];
      AllNonNil(xs) && Appended(xs) == [Integer(1), Text("a")]
  {
    var xs := [Iface(Some(Plain(None, IntKind(1)))), Iface(Some(Plain(None, UintKind(2)))),
               Iface(Some(Plain(None, StringKind("a"))))];
    assert xs[1..][1..] == [xs[2]] && [xs[2]][1..] == [];
  }

  /** Fields tagged "0", "1" and "-": two cells written, the third field
      skipped, and the count is 2. */
  lemma StructExample()
    ensures var ps := Plans([Field("0", Direct(Plain(None, StringKind("Ann")))),
                             Field("1", Direct(Plain(None, IntKind(30)))),
                             Field("-", Direct(Plain(None, StringKind("x"))))]);
      ps == [WriteAt(0, Text("Ann")), WriteAt(1, Integer(30)), Skipped] &&
      Placeable(ps) && Placed([], ps) == [Text("Ann"), Integer(30)] &&
      FirstBad(ps) == None && Counted(ps) == 2
  {
    var fs := [Field("0", Direct(Plain(None, StringKind("Ann")))),
               Field("1", Direct(Plain(None, IntKind(30)))),
               Field("-", Direct(Plain(None, StringKind("x"))))];
    assert "1"[..0] == "";
    assert Plans(fs) == [WriteAt(0, Text("Ann")), WriteAt(1, Integer(30)), Skipped] by {
      assert fs[..2][..1] == fs[..1] && fs[..1][..0] == [];
    }
    var ps := [WriteAt(0, Text("Ann")), WriteAt(1, Integer(30)), Skipped];
    assert ps[1..][1..] == [Skipped] && [Skipped][1..] == [];
    assert ps[..|ps| - 1] == ps[..2];
    assert ps[..2][..1] == ps[..1] && ps[..1][..0] == [];
    assert Counted(ps[..1]) == 1;
    assert Counted(ps[..2]) == 2;
  }

  /** A bad tag after a written field: the error is reported and the cell
      written before it stays. */
  lemma BadTagExample()
    ensures var ps := Plans([Field("1", Direct(Plain(None, BoolKind(true)))),
                             Field("one", Direct(Plain(None, IntKind(1))))]);
      Placeable(ps) && FirstBad(ps) == Some(1) && Placed([], ps) == [Empty, Boolean(true)]
  {
    var fs := [Field("1", Direct(Plain(None, BoolKind(true)))),
               Field("one", Direct(Plain(None, IntKind(1))))];
    assert !AllDigits("one") by { assert !IsDigit("one"[0]); }
    assert Plans(fs) == [WriteAt(1, Boolean(true)), BadTag] by {
      assert fs[..1][..0] == [];
    }
    var ps := [WriteAt(1, Boolean(true)), BadTag];
    assert ps[1..] == [BadTag];
  }
}
