/** `MoveBuilderModel`: the move builder's editing state, the tick shown and
  * the box selected, over the hitbox data it edits.  The step functions on
  * an `Editor` value come first, with what they promise; then the class,
  * each method proved against its step function. */
module MoveBuilderModels {
  import opened Outcomes
  import opened HitboxDatas

  /** What the editor's fields hold: the bound data's frames (`None` when no
    * data is bound), `CurrentTick` and `SelectedBoxIndex`. */
  datatype Editor = Editor(Frames: Option<seq<FrameData>>, Tick: int, Selected: int)

  /** `Mathf.Clamp` on integers. */
  function Clamp(v: int, lo: int, hi: int): int
  {
    if v < lo then lo else if v > hi then hi else v
  }

  /** `TotalTicks`: the data's tick count, but never less than one. */
  function TotalTicksOf(e: Editor): (n: int)
    ensures n >= 1
    ensures e.Frames.Some? && |e.Frames.value| >= 1 ==> n == |e.Frames.value|
    ensures e.Frames.None? || |e.Frames.value| == 0 ==> n == 1
  {
    if e.Frames.None? then 1 else if |e.Frames.value| < 1 then 1 else |e.Frames.value|
  }

  /** `GetCurrentFrame`: the frame at the current tick, or nothing without
    * data or outside the data's ticks. */
  function CurrentFrameOf(e: Editor): (r: Option<FrameData>)
    ensures r.Some? <==> e.Frames.Some? && 0 <= e.Tick < |e.Frames.value|
    ensures r.Some? ==> r.value == e.Frames.value[e.Tick]
  {
    if e.Frames.None? || e.Tick < 0 || e.Tick >= |e.Frames.value| then None else Some(e.Frames.value[e.Tick])
  }

  /** The current frame's boxes, when there is a current frame. */
  function CurrentBoxes(e: Editor): seq<BoxData>
    requires CurrentFrameOf(e).Some?
  {
    CurrentFrameOf(e).value.Boxes
  }

  /** Whether the selection is an index of the current frame's boxes. */
  predicate SelectionValid(e: Editor)
  {
    CurrentFrameOf(e).Some? && 0 <= e.Selected < |CurrentBoxes(e)|
  }

  /** The current frame with its boxes replaced. */
  function WithBoxes(e: Editor, boxes: seq<BoxData>): (r: Editor)
    requires CurrentFrameOf(e).Some?
    ensures CurrentFrameOf(r).Some? && CurrentBoxes(r) == boxes
  {
    e.(Frames := Some(e.Frames.value[e.Tick := FrameData(boxes)]))
  }

  // ----- The step functions -----

  /** `SelectBox(index)`: an index past the last box, or any index when
    * there is no current frame, selects nothing (-1); any other index is
    * taken as it is. */
  function BoxSelected(e: Editor, index: int): Editor
  {
    var max := if CurrentFrameOf(e).Some? then |CurrentBoxes(e)| - 1 else -1;
    e.(Selected := if index > max then -1 else index)
  }

  /** `SetTick(tick)`: without data nothing changes; otherwise the tick is
    * clamped to the data's ticks and the selection checked again. */
  function TickSet(e: Editor, tick: int): Editor
  {
    if e.Frames.None? then e
    else BoxSelected(e.(Tick := Clamp(tick, 0, TotalTicksOf(e) - 1)), e.Selected)
  }

  /** The box `AddBox(kind)` creates. */
  function NewBox(kind: HitboxKind): BoxData
  {
    BoxData(if kind == Hitbox then "Hit" else "Hurt", Vec2(0.0, 0.0), Vec2(0.5, 0.5),
            BoxProps(kind, 0, if kind == Hitbox then 12 else 0, 0, false, Vec2(1.0, 0.0)))
  }

  /** `AddBox(kind)`: a new box last in the current frame, selected. */
  function BoxAdded(e: Editor, kind: HitboxKind): Editor
  {
    if CurrentFrameOf(e).None? then e
    else
      var boxes := CurrentBoxes(e) + [NewBox(kind)];
      WithBoxes(e, boxes).(Selected := |boxes| - 1)
  }

  /** `DuplicateSelected`: a copy of the selected box, its name suffixed
    * with `_Copy`, goes last and is selected. */
  function Duplicated(e: Editor): Editor
  {
    if !SelectionValid(e) then e
    else
      var boxes := CurrentBoxes(e);
      var copy := boxes[e.Selected].(Name := boxes[e.Selected].Name + "_Copy");
      WithBoxes(e, boxes + [copy]).(Selected := |boxes|)
  }

  /** `DeleteSelected`: the selected box is removed and nothing is
    * selected. */
  function Deleted(e: Editor): Editor
  {
    if !SelectionValid(e) then e
    else
      var boxes := CurrentBoxes(e);
      WithBoxes(e, boxes[..e.Selected] + boxes[e.Selected + 1..]).(Selected := -1)
  }

  /** The shared shape of the three single-box edits: an index out of
    * range, or an edit that `BoxData.Equals` finds unchanged (vectors
    * within the `Vector2 ==` tolerance), leaves everything as it is;
    * otherwise only box `index` is replaced. */
  function BoxReplaced(e: Editor, index: int, edit: BoxData -> BoxData): Editor
  {
    if CurrentFrameOf(e).None? || index < 0 || index >= |CurrentBoxes(e)| then e
    else
      var b := CurrentBoxes(e)[index];
      if BoxEqual(b, edit(b)) then e else WithBoxes(e, CurrentBoxes(e)[index := edit(b)])
  }

  /** `EditBoxKnockback(index, knockback)`; the unchanged test compares the
    * knockback only, which for this edit is the whole `BoxData.Equals`. */
  function KnockbackEdited(e: Editor, index: int, knockback: Vec2): Editor
  {
    BoxReplaced(e, index, (b: BoxData) => b.(Props := b.Props.(Knockback := knockback)))
  }

  /** `MoveBoxCenter(index, center)`. */
  function CenterMoved(e: Editor, index: int, center: Vec2): Editor
  {
    BoxReplaced(e, index, (b: BoxData) => b.(CenterLocal := center))
  }

  /** `SetBox(index, updated)`. */
  function BoxSet(e: Editor, index: int, updated: BoxData): Editor
  {
    BoxReplaced(e, index, _ => updated)
  }

  /** `SetBoxesFromPreviousFrame`: from the second tick on, the current
    * frame's boxes become those of the frame before; a selection past the
    * end moves to the last box, and an empty frame selects nothing. */
  function PreviousCopied(e: Editor): Editor
  {
    if e.Frames.None? || e.Tick <= 0 || e.Tick >= |e.Frames.value| then e
    else
      var boxes := e.Frames.value[e.Tick - 1].Boxes;
      var sel := if e.Selected >= |boxes| then |boxes| - 1 else e.Selected;
      WithBoxes(e, boxes).(Selected := if |boxes| == 0 then -1 else sel)
  }

  /** `ResetTimelineSelection`. */
  function TimelineReset(e: Editor): Editor
  {
    e.(Tick := 0, Selected := -1)
  }

  // ----- What the edits promise -----

  /** Whether two editors hold the same frames except, possibly, the
    * current one. */
  predicate OthersKept(a: Editor, b: Editor)
  {
    a.Frames.Some? && b.Frames.Some? && |a.Frames.value| == |b.Frames.value| &&
    forall t :: 0 <= t < |a.Frames.value| && t != a.Tick ==> a.Frames.value[t] == b.Frames.value[t]
  }

  /** The selection after `SelectBox(index)` is at most the last box's
    * index, or -1; an index up to the last one is kept as given. */
  lemma BoxSelectedMeaning(e: Editor, index: int)
    ensures var r := BoxSelected(e, index);
      r == e.(Selected := r.Selected) &&
      (CurrentFrameOf(e).None? ==> r.Selected == -1 || r.Selected == index) &&
      (CurrentFrameOf(e).Some? ==> r.Selected < |CurrentBoxes(e)|) &&
      (CurrentFrameOf(e).Some? && index < |CurrentBoxes(e)| ==> r.Selected == index) &&
      (r.Selected != index ==> r.Selected == -1)
  {
  }

  /** With data bound, `SetTick` lands in `[0, TotalTicks - 1]`, on the
    * given tick when it is in range, and on a current frame whenever the
    * data has frames; the selection is then within that frame's boxes or
    * -1.  Without data nothing changes. */
  lemma TickSetMeaning(e: Editor, tick: int)
    ensures var r := TickSet(e, tick);
      (e.Frames.None? ==> r == e) &&
      (e.Frames.Some? ==>
         r.Frames == e.Frames && 0 <= r.Tick <= TotalTicksOf(e) - 1 &&
         (0 <= tick < TotalTicksOf(e) ==> r.Tick == tick) &&
         (|e.Frames.value| >= 1 ==> CurrentFrameOf(r).Some? && r.Selected < |CurrentBoxes(r)|) &&
         (r.Selected == e.Selected || r.Selected == -1))
  {
  }

  /** A second `SetTick` to the same tick changes nothing more. */
  lemma TickSetIdempotent(e: Editor, tick: int)
    ensures TickSet(TickSet(e, tick), tick) == TickSet(e, tick)
  {
  }

  /** `AddBox` appends exactly one box of the given kind to the current
    * frame, keeps the other frames, and selects the new box. */
  lemma BoxAddedMeaning(e: Editor, kind: HitboxKind)
    ensures var r := BoxAdded(e, kind);
      (CurrentFrameOf(e).None? ==> r == e) &&
      (CurrentFrameOf(e).Some? ==>
         OthersKept(e, r) && r.Tick == e.Tick && CurrentFrameOf(r).Some? &&
         CurrentBoxes(r) == CurrentBoxes(e) + [NewBox(kind)] &&
         CurrentBoxes(r)[r.Selected].Props.Kind == kind && SelectionValid(r))
  {
  }

  /** `DuplicateSelected` appends a copy of the selected box that differs
    * only in its name, and selects it; without a valid selection it does
    * nothing. */
  lemma DuplicatedMeaning(e: Editor)
    ensures var r := Duplicated(e);
      (!SelectionValid(e) ==> r == e) &&
      (SelectionValid(e) ==>
         OthersKept(e, r) && r.Tick == e.Tick && SelectionValid(r) &&
         |CurrentBoxes(r)| == |CurrentBoxes(e)| + 1 && CurrentBoxes(r)[..|CurrentBoxes(e)|] == CurrentBoxes(e) &&
         r.Selected == |CurrentBoxes(e)| &&
         CurrentBoxes(r)[r.Selected] == CurrentBoxes(e)[e.Selected].(Name := CurrentBoxes(e)[e.Selected].Name + "_Copy"))
  {
    if SelectionValid(e) {
      var r := Duplicated(e);
      assert CurrentBoxes(r) == CurrentBoxes(e) + [CurrentBoxes(r)[r.Selected]];
      assert CurrentBoxes(r)[..|CurrentBoxes(e)|] == CurrentBoxes(e);
    }
  }

  /** `DeleteSelected` removes exactly the selected box, keeping the order
    * of the others, and selects nothing; without a valid selection it does
    * nothing. */
  lemma DeletedMeaning(e: Editor)
    ensures var r := Deleted(e);
      (!SelectionValid(e) ==> r == e) &&
      (SelectionValid(e) ==>
         OthersKept(e, r) && r.Tick == e.Tick && r.Selected == -1 &&
         |CurrentBoxes(r)| == |CurrentBoxes(e)| - 1 &&
         (forall j :: 0 <= j < e.Selected ==> CurrentBoxes(r)[j] == CurrentBoxes(e)[j]) &&
         (forall j :: e.Selected <= j < |CurrentBoxes(r)| ==> CurrentBoxes(r)[j] == CurrentBoxes(e)[j + 1]))
  {
  }

  /** Deleting the box just added gives back the frames as they were. */
  lemma AddThenDelete(e: Editor, kind: HitboxKind)
    requires CurrentFrameOf(e).Some?
    ensures Deleted(BoxAdded(e, kind)) == e.(Selected := -1)
  {
    var boxes := CurrentBoxes(e);
    var a := BoxAdded(e, kind);
    assert CurrentBoxes(a)[..|boxes|] + CurrentBoxes(a)[|boxes| + 1..] == boxes;
    assert a.Frames.value[e.Tick := FrameData(boxes)] == e.Frames.value;
  }

  /** Deleting the copy just made gives back the frames as they were. */
  lemma DuplicateThenDelete(e: Editor)
    requires SelectionValid(e)
    ensures Deleted(Duplicated(e)) == e.(Selected := -1)
  {
    var boxes := CurrentBoxes(e);
    var d := Duplicated(e);
    assert CurrentBoxes(d)[..|boxes|] + CurrentBoxes(d)[|boxes| + 1..] == boxes;
    assert d.Frames.value[e.Tick := FrameData(boxes)] == e.Frames.value;
  }

  /** A single-box edit changes at most box `index` of the current frame:
    * an index out of range, or an edited box that `Equals` the current one,
    * leaves the editor as it is; any other edit stores the edited box.
    * Either way box `index` ends `Equals` to the edited box, and the
    * selection never moves. */
  lemma BoxReplacedMeaning(e: Editor, index: int, edit: BoxData -> BoxData)
    ensures var r := BoxReplaced(e, index, edit);
      r.Tick == e.Tick && r.Selected == e.Selected &&
      (CurrentFrameOf(e).None? || index < 0 || index >= |CurrentBoxes(e)| ==> r == e) &&
      (CurrentFrameOf(e).Some? && 0 <= index < |CurrentBoxes(e)| ==>
         var b := CurrentBoxes(e)[index];
         (BoxEqual(b, edit(b)) ==> r == e) &&
         OthersKept(e, r) && CurrentFrameOf(r).Some? && |CurrentBoxes(r)| == |CurrentBoxes(e)| &&
         BoxEqual(CurrentBoxes(r)[index], edit(b)) &&
         (!BoxEqual(b, edit(b)) ==> CurrentBoxes(r)[index] == edit(b)) &&
         forall j :: 0 <= j < |CurrentBoxes(e)| && j != index ==> CurrentBoxes(r)[j] == CurrentBoxes(e)[j])
  {
    if CurrentFrameOf(e).Some? && 0 <= index < |CurrentBoxes(e)| {
      var b := CurrentBoxes(e)[index];
      BoxEqualMeaning(edit(b), edit(b));
    }
  }

  /** After `SetBox(index, b)` box `index` `Equals` `b`: it is `b` unless
    * the current box already `Equals` `b`, in which case nothing changes.
    * Setting it again changes nothing. */
  lemma BoxSetMeaning(e: Editor, index: int, b: BoxData)
    requires CurrentFrameOf(e).Some? && 0 <= index < |CurrentBoxes(e)|
    ensures var r := BoxSet(e, index, b);
      CurrentFrameOf(r).Some? && BoxEqual(CurrentBoxes(r)[index], b) &&
      (BoxEqual(CurrentBoxes(e)[index], b) ==> r == e) &&
      (!BoxEqual(CurrentBoxes(e)[index], b) ==> CurrentBoxes(r)[index] == b) &&
      BoxSet(r, index, b) == r
  {
    BoxReplacedMeaning(e, index, _ => b);
  }

  /** `EditBoxKnockback(index, k)` leaves the editor alone when `k` is
    * within the vector tolerance of the box's knockback, and otherwise
    * gives box `index` knockback `k` and keeps its other fields. */
  lemma KnockbackEditedMeaning(e: Editor, index: int, k: Vec2)
    requires CurrentFrameOf(e).Some? && 0 <= index < |CurrentBoxes(e)|
    ensures var r := KnockbackEdited(e, index, k);
      var b := CurrentBoxes(e)[index];
      CurrentFrameOf(r).Some? && Near(CurrentBoxes(r)[index].Props.Knockback, k) &&
      (Near(b.Props.Knockback, k) ==> r == e) &&
      (!Near(b.Props.Knockback, k) ==> CurrentBoxes(r)[index] == b.(Props := b.Props.(Knockback := k)))
  {
    var edit := (b: BoxData) => b.(Props := b.Props.(Knockback := k));
    BoxReplacedMeaning(e, index, edit);
    var b := CurrentBoxes(e)[index];
    BoxEqualMeaning(b, edit(b));
    BoxEqualMeaning(CurrentBoxes(KnockbackEdited(e, index, k))[index], edit(b));
    NearFacts(b.Props.Knockback, k);
  }

  /** `MoveBoxCenter(index, c)` leaves the editor alone when `c` is within
    * the vector tolerance of the box's centre, and otherwise centres box
    * `index` at `c` and keeps its other fields. */
  lemma CenterMovedMeaning(e: Editor, index: int, c: Vec2)
    requires CurrentFrameOf(e).Some? && 0 <= index < |CurrentBoxes(e)|
    ensures var r := CenterMoved(e, index, c);
      var b := CurrentBoxes(e)[index];
      CurrentFrameOf(r).Some? && Near(CurrentBoxes(r)[index].CenterLocal, c) &&
      (Near(b.CenterLocal, c) ==> r == e) &&
      (!Near(b.CenterLocal, c) ==> CurrentBoxes(r)[index] == b.(CenterLocal := c))
  {
    var edit := (b: BoxData) => b.(CenterLocal := c);
    BoxReplacedMeaning(e, index, edit);
    var b := CurrentBoxes(e)[index];
    BoxEqualMeaning(b, edit(b));
    BoxEqualMeaning(CurrentBoxes(CenterMoved(e, index, c))[index], edit(b));
    NearFacts(b.CenterLocal, c);
  }

  /** A knockback a millionth off the current one is ignored: the edit
    * leaves the editor as it is although the value differs. */
  lemma NearKnockbackIgnored(e: Editor, index: int)
    requires CurrentFrameOf(e).Some? && 0 <= index < |CurrentBoxes(e)|
    ensures var kb := CurrentBoxes(e)[index].Props.Knockback;
      var k := Vec2(kb.X + 0.000001, kb.Y);
      k != kb && KnockbackEdited(e, index, k) == e
  {
    var b := CurrentBoxes(e)[index];
    PropsEqualNotIdentity(b.Props);
    KnockbackEditedMeaning(e, index, Vec2(b.Props.Knockback.X + 0.000001, b.Props.Knockback.Y));
  }

  /** `SetBoxesFromPreviousFrame` makes the current boxes copies of the
    * previous frame's, keeps every other frame, and leaves the selection a
    * box of the frame or -1 unless it was below -1 already; a selection
    * still in range is kept.  Copying twice is copying once. */
  lemma PreviousCopiedMeaning(e: Editor)
    ensures var r := PreviousCopied(e);
      (e.Frames.None? || e.Tick <= 0 || e.Tick >= |e.Frames.value| ==> r == e) &&
      (e.Frames.Some? && 0 < e.Tick < |e.Frames.value| ==>
         OthersKept(e, r) && r.Tick == e.Tick && CurrentFrameOf(r).Some? &&
         CurrentBoxes(r) == e.Frames.value[e.Tick - 1].Boxes &&
         r.Selected < |CurrentBoxes(r)| &&
         (|CurrentBoxes(r)| == 0 ==> r.Selected == -1) &&
         (|CurrentBoxes(r)| > 0 && e.Selected < |CurrentBoxes(r)| ==> r.Selected == e.Selected) &&
         PreviousCopied(r) == r)
  {
    var r := PreviousCopied(e);
    if e.Frames.Some? && 0 < e.Tick < |e.Frames.value| {
      var boxes := e.Frames.value[e.Tick - 1].Boxes;
      assert r.Frames.value[e.Tick - 1] == e.Frames.value[e.Tick - 1];
      assert r.Frames.value[e.Tick := FrameData(boxes)] == r.Frames.value;
    }
  }

  /** `ResetTimelineSelection` goes to the first tick with nothing
    * selected, and keeps the data. */
  lemma TimelineResetMeaning(e: Editor)
    ensures var r := TimelineReset(e);
      r.Frames == e.Frames && r.Tick == 0 && r.Selected == -1 && !SelectionValid(r)
  {
  }

  // ----- The editor object -----

  /** `MoveBuilderModel`: the bound `HitboxData` (null when none is bound),
    * the current tick and the selected box.  Undo recording and marking
    * the asset dirty are left out. */
  class MoveBuilderModel {
    var data: HitboxData?
    var currentTick: int
    var selectedBoxIndex: int

    ghost function Snapshot(): Editor
      reads this, data
    {
      Editor(if data == null then None else Some(data.Frames), currentTick, selectedBoxIndex)
    }

    constructor (data: HitboxData?)
      ensures this.data == data && Snapshot() == Editor(Snapshot().Frames, 0, -1)
    {
      this.data := data;
      currentTick, selectedBoxIndex := 0, -1;
    }

    /** `TotalTicks`. */
    function TotalTicks(): (n: int)
      reads this, data
      ensures n == TotalTicksOf(Snapshot())
    {
      if data == null then 1 else if data.TotalTicks() < 1 then 1 else data.TotalTicks()
    }

    /** `GetCurrentFrame`. */
    function GetCurrentFrame(): (r: Option<FrameData>)
      reads this, data
      ensures r == CurrentFrameOf(Snapshot())
    {
      if data == null then None else data.GetFrame(currentTick)
    }

    /** The current frame's boxes replaced, in the data. */
    method StoreBoxes(boxes: seq<BoxData>)
      requires CurrentFrameOf(Snapshot()).Some?
      modifies data
      ensures data != null && Snapshot() == WithBoxes(old(Snapshot()), boxes)
    {
      data.Frames := data.Frames[currentTick := FrameData(boxes)];
    }

    method SelectBox(index: int)
      modifies this
      ensures data == old(data) && Snapshot() == BoxSelected(old(Snapshot()), index)
    {
      var frame := GetCurrentFrame();
      var max := if frame.Some? then |frame.value.Boxes| - 1 else -1;
      if index > max {
        selectedBoxIndex := -1;
      } else {
        selectedBoxIndex := index;
      }
    }

    method SetTick(tick: int)
      modifies this
      ensures data == old(data) && Snapshot() == TickSet(old(Snapshot()), tick)
    {
      if data == null {
        return;
      }
      currentTick := Clamp(tick, 0, TotalTicks() - 1);
      SelectBox(selectedBoxIndex);
    }

    method AddBox(kind: HitboxKind)
      modifies this, data
      ensures data == old(data) && Snapshot() == BoxAdded(old(Snapshot()), kind)
    {
      var frame := GetCurrentFrame();
      if frame.None? {
        return;
      }
      var boxes := frame.value.Boxes + [NewBox(kind)];
      StoreBoxes(boxes);
      selectedBoxIndex := |boxes| - 1;
    }

    method DuplicateSelected()
      modifies this, data
      ensures data == old(data) && Snapshot() == Duplicated(old(Snapshot()))
    {
      var frame := GetCurrentFrame();
      if frame.None? {
        return;
      }
      if selectedBoxIndex < 0 || selectedBoxIndex >= |frame.value.Boxes| {
        return;
      }
      var copy := frame.value.Boxes[selectedBoxIndex];
      copy := copy.(Name := copy.Name + "_Copy");
      StoreBoxes(frame.value.Boxes + [copy]);
      selectedBoxIndex := |frame.value.Boxes|;
    }

    method DeleteSelected()
      modifies this, data
      ensures data == old(data) && Snapshot() == Deleted(old(Snapshot()))
    {
      var frame := GetCurrentFrame();
      if frame.None? {
        return;
      }
      if selectedBoxIndex < 0 || selectedBoxIndex >= |frame.value.Boxes| {
        return;
      }
      var boxes := frame.value.Boxes;
      StoreBoxes(boxes[..selectedBoxIndex] + boxes[selectedBoxIndex + 1..]);
      selectedBoxIndex := -1;
    }

    method EditBoxKnockback(index: int, knockback: Vec2)
      modifies data
      ensures data == old(data) && Snapshot() == KnockbackEdited(old(Snapshot()), index, knockback)
    {
      var frame := GetCurrentFrame();
      if frame.None? {
        return;
      }
      if index < 0 || index >= |frame.value.Boxes| {
        return;
      }
      var b := frame.value.Boxes[index];
      BoxEqualMeaning(b, b.(Props := b.Props.(Knockback := knockback)));
      if Near(b.Props.Knockback, knockback) {
        return;
      }
      b := b.(Props := b.Props.(Knockback := knockback));
      StoreBoxes(frame.value.Boxes[index := b]);
    }

    method MoveBoxCenter(index: int, newCenterLocal: Vec2)
      modifies data
      ensures data == old(data) && Snapshot() == CenterMoved(old(Snapshot()), index, newCenterLocal)
    {
      var frame := GetCurrentFrame();
      if frame.None? {
        return;
      }
      if index < 0 || index >= |frame.value.Boxes| {
        return;
      }
      var b := frame.value.Boxes[index];
      BoxEqualMeaning(b, b.(CenterLocal := newCenterLocal));
      if Near(b.CenterLocal, newCenterLocal) {
        return;
      }
      b := b.(CenterLocal := newCenterLocal);
      StoreBoxes(frame.value.Boxes[index := b]);
    }

    method SetBox(index: int, updated: BoxData)
      modifies data
      ensures data == old(data) && Snapshot() == BoxSet(old(Snapshot()), index, updated)
    {
      var frame := GetCurrentFrame();
      if frame.None? {
        return;
      }
      if index < 0 || index >= |frame.value.Boxes| {
        return;
      }
      var cur := frame.value.Boxes[index];
      if BoxEqual(cur, updated) {
        return;
      }
      StoreBoxes(frame.value.Boxes[index := updated]);
    }

    /** The copy loop builds each box field by field from the previous
      * frame's. */
    method SetBoxesFromPreviousFrame()
      modifies this, data
      ensures data == old(data) && Snapshot() == PreviousCopied(old(Snapshot()))
    {
      if data == null {
        return;
      }
      if currentTick <= 0 {
        return;
      }
      var prev := data.GetFrame(currentTick - 1);
      var cur := data.GetFrame(currentTick);
      if prev.None? || cur.None? {
        return;
      }
      var boxes: seq<BoxData> := [];
      for i := 0 to |prev.value.Boxes|
        invariant boxes == prev.value.Boxes[..i]
      {
        var src := prev.value.Boxes[i];
        boxes := boxes + [BoxData(src.Name, src.CenterLocal, src.SizeLocal, src.Props)];
      }
      assert boxes == prev.value.Boxes;
      StoreBoxes(boxes);
      if selectedBoxIndex >= |boxes| {
        selectedBoxIndex := |boxes| - 1;
      }
      if |boxes| == 0 {
        selectedBoxIndex := -1;
      }
    }

    method ResetTimelineSelection()
      modifies this
      ensures data == old(data) && Snapshot() == TimelineReset(old(Snapshot()))
    {
      currentTick := 0;
      selectedBoxIndex := -1;
    }
  }
}
