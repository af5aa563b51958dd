/** The window manager over its arrays: each routine does to the slots and the z-order what GuiDesk
    says. Titles, bodies and drawing are not part of this model. */
module GuiServer {
  import opened GuiDesk

  class Server {
    const ui: Ui
    const windows: array<Window>
    const zOrder: array<int>
    var zCount: nat
    var focused: int
    var cascade: int

    /** The arrays are in use as the code expects; the desk they hold is tidy. */
    ghost predicate Valid()
      reads this, windows, zOrder
    {
      windows.Length == 8 && zOrder.Length == 8 && zCount <= 8 && Tidy(View())
    }

    ghost function View(): Desk
      requires zCount <= zOrder.Length
      reads this, windows, zOrder
    {
      Desk(windows[..], zOrder[..zCount], focused, cascade)
    }

    /** `windows_reset`, then the system window. */
    constructor (ui: Ui, w: int, h: int)
      ensures Valid() && fresh(windows) && fresh(zOrder) && this.ui == ui
      ensures View() == Created(ui, EMPTY, 0, -1, -1, w, h, true)
    {
      this.ui := ui;
      windows := new Window[8](_ => UNUSED);
      zOrder := new int[8](_ => -1);
      zCount, focused, cascade := 0, -1, 0;
      new;
      assert windows[..] == EMPTY.wins && zOrder[..0] == [];
      StartTidy();
      CreateTidy(ui, EMPTY, 0, -1, -1, w, h, true);
      var slot := WindowCreate(0, -1, -1, w, h, true);
    }

    /** `window_find_by_pid` */
    method FindByPid(pid: nat) returns (idx: int)
      ensures var i := FindPid(windows[..], pid, 0); idx == if i == windows.Length then -1 else i
    {
      for i := 0 to windows.Length
        invariant FindPid(windows[..], pid, 0) == FindPid(windows[..], pid, i)
      {
        if Client(windows[i]) && windows[i].pid == pid { return i; }
      }
      return -1;
    }

    /** `window_remove_from_z`: what lies above moves down by one. */
    method RemoveFromZ(idx: int)
      requires zCount <= zOrder.Length
      modifies `zCount, zOrder
      ensures zCount <= zOrder.Length && zOrder[..zCount] == Removed(old(zOrder[..zCount]), idx)
    {
      ghost var z := zOrder[..zCount];
      for i := 0 to zCount
        invariant zOrder[..zCount] == z && idx !in z[..i]
      {
        if zOrder[i] == idx {
          Shift(i, z);
          RemovedAt(z, i);
          zCount := zCount - 1;
          zOrder[zCount] := -1;
          return;
        }
      }
      assert z[..|z|] == z;
    }

    method Shift(i: nat, ghost z: seq<int>)
      requires i < zCount <= zOrder.Length && zOrder[..zCount] == z
      modifies zOrder
      ensures zOrder[..zCount - 1] == z[..i] + z[i + 1..]
    {
      assert forall k :: 0 <= k < zCount ==> zOrder[k] == z[k];
      for j := i + 1 to zCount
        invariant forall k :: 0 <= k < i ==> zOrder[k] == z[k]
        invariant forall k :: i <= k < j - 1 ==> zOrder[k] == z[k + 1]
        invariant forall k :: j - 1 <= k < zCount ==> zOrder[k] == z[k]
      {
        zOrder[j - 1] := zOrder[j];
      }
    }

    /** `window_focus`: a negative index drops the focus, an unused slot is ignored. */
    method WindowFocus(idx: int)
      requires Valid() && idx < 8
      modifies `zCount, `focused, zOrder
      ensures idx >= 0 ==> Valid()
      ensures zCount <= 8 && View() == if idx < 0 then old(View()).(focused := -1)
                                       else if old(windows[idx].used) then Focused(old(View()), idx) else old(View())
    {
      hide Tidy, Removed;
      ghost var d := View();
      if idx < 0 {
        focused := -1;
        return;
      }
      if !windows[idx].used { return; }
      TidySize(d);
      TidyDistinct(d);
      FocusTidy(d, idx);
      RemovedMeans(d.z, idx);
      RemoveFromZ(idx);
      PutOnTop(idx);
    }

    /** The slot goes on top of the z-order, if there is room, and gets the focus. */
    method PutOnTop(idx: int)
      requires zCount <= zOrder.Length
      modifies `zCount, `focused, zOrder
      ensures zCount <= zOrder.Length && focused == idx
      ensures zOrder[..zCount] ==
              if old(zCount) < zOrder.Length then old(zOrder[..zCount]) + [idx] else old(zOrder[..zCount])
    {
      if zCount < zOrder.Length {
        zOrder[zCount] := idx;
        zCount := zCount + 1;
      }
      focused := idx;
    }

    /** `window_create`: the slot taken, or -1. */
    method WindowCreate(pid: nat, x: int, y: int, w: int, h: int, system: bool) returns (idx: int)
      requires Valid() && (system || PidFree(View(), pid))
      modifies `zCount, `focused, `cascade, windows, zOrder
      ensures Valid() && View() == Created(ui, old(View()), pid, x, y, w, h, system)
      ensures var slot := FindUnused(old(windows[..]), 0); idx == if slot == 8 then -1 else slot
    {
      hide Clamp, Draft, Tidy, FindUnused;
      ghost var d := View();
      CreateTidy(ui, d, pid, x, y, w, h, system);
      var slot := FindSlot();
      if slot < 0 { return -1; }
      TidyRoom(d, slot);
      var draft := Draft(ui, Desk([], [], focused, cascade), pid, x, y, w, h, system);
      DraftReads(ui, Desk([], [], focused, cascade), d, pid, x, y, w, h, system);
      windows[slot] := Clamp(ui, draft);
      if x < 0 || y < 0 { cascade := (cascade + 20) % 120; }
      PutOnTop(slot);
      assert windows[..] == d.wins[slot := Clamp(ui, draft)];
      return slot;
    }

    method FindSlot() returns (slot: int)
      ensures var i := FindUnused(windows[..], 0); slot == if i == windows.Length then -1 else i
    {
      for i := 0 to windows.Length
        invariant FindUnused(windows[..], 0) == FindUnused(windows[..], i)
      {
        if !windows[i].used { return i; }
      }
      return -1;
    }

    /** `window_destroy` */
    method WindowDestroy(idx: int)
      requires Valid()
      modifies `zCount, `focused, windows, zOrder
      ensures Valid() && View() == Destroyed(old(View()), idx)
    {
      ghost var d := View();
      DestroyTidy(d, idx);
      if idx < 0 || idx >= windows.Length { return; }
      if !windows[idx].used { return; }
      if windows[idx].system { return; }
      windows[idx] := windows[idx].(used := false);
      RemoveFromZ(idx);
      RemovedShorter(d.z, idx);
      if focused == idx { focused := if zCount > 0 then zOrder[zCount - 1] else -1; }
      assert windows[..] == d.wins[idx := d.wins[idx].(used := false)];
    }

    /** `window_find_at` */
    method WindowFindAt(px: int, py: int) returns (idx: int)
      requires Valid()
      ensures idx == Hit(windows[..], zOrder[..zCount], zCount, px, py)
    {
      var i: nat := zCount;
      while i > 0
        invariant i <= zCount
        invariant Hit(windows[..], zOrder[..zCount], zCount, px, py) == Hit(windows[..], zOrder[..zCount], i, px, py)
      {
        i := i - 1;
        var at := zOrder[i];
        assert zOrder[..zCount][i] == at;
        if 0 <= at < windows.Length && windows[at].used && Contains(windows[at], px, py) { return at; }
      }
      return -1;
    }

    /** `handle_gui_message` */
    method HandleMessage(m: Msg)
      requires Valid()
      modifies `zCount, `focused, `cascade, windows, zOrder
      ensures Valid() && View() == Handled(ui, old(View()), m)
    {
      hide Tidy, Created, Destroyed, Focused;
      TidySize(View());
      match m {
        case Create(pid, x, y, c) =>
          var idx := FindByPid(pid);
          if idx < 0 {
            var slot := WindowCreate(pid, x, y, WidthOf(c), HeightOf(c), false);
          } else {
            WindowFocus(idx);
          }
        case Text(pid) =>
          var idx := FindByPid(pid);
          if idx < 0 { var slot := WindowCreate(pid, -1, -1, -1, -1, false); }
        case Close(pid) =>
          var idx := FindByPid(pid);
          DestroyNothing(View(), FindPid(windows[..], pid, 0));
          if idx >= 0 { WindowDestroy(idx); }
        case Other =>
      }
    }

    /** A press of the left button. */
    method HandleClick(px: int, py: int)
      requires Valid()
      modifies `zCount, `focused, `cascade, windows, zOrder
      ensures Valid() && View() == Clicked(ui, old(View()), px, py)
    {
      hide Tidy, Destroyed, Focused, Hit, OnClose;
      TidySize(View());
      var hit := WindowFindAt(px, py);
      HitInZ(windows[..], zOrder[..zCount], zCount, px, py);
      TidyUsed(View());
      if hit >= 0 {
        if !windows[hit].system && OnClose(ui, windows[hit], px, py) {
          WindowDestroy(hit);
        } else {
          WindowFocus(hit);
        }
      }
    }
  }

  lemma HeadOff(z: seq<int>, i: nat)
    requires 0 < i < |z| && z[i] !in z[..i]
    ensures var t := z[1..];
            && t[i - 1] == z[i] && t[i - 1] !in t[..i - 1] && z[0] != z[i]
            && t[i..] == z[i + 1..] && [z[0]] + t[..i - 1] == z[..i]
  {
    var t := z[1..];
    assert [z[0]] + t[..i - 1] == z[..i];
    assert z[..i][0] == z[0];
  }

  lemma {:induction false} RemovedAt(z: seq<int>, i: nat)
    requires i < |z| && z[i] !in z[..i]
    ensures Removed(z, z[i]) == z[..i] + z[i + 1..]
    decreases |z|
  {
    if i > 0 {
      var t := z[1..];
      HeadOff(z, i);
      RemovedAt(t, i - 1);
      assert [z[0]] + (t[..i - 1] + t[i..]) == [z[0]] + t[..i - 1] + t[i..];
    }
  }

  lemma {:induction false} RemovedShorter(z: seq<int>, idx: int)
    ensures |Removed(z, idx)| <= |z|
    decreases |z|
  {
    if z != [] { RemovedShorter(z[1..], idx); }
  }

  lemma DraftReads(ui: Ui, a: Desk, b: Desk, pid: nat, x: int, y: int, w: int, h: int, system: bool)
    requires a.cascade == b.cascade
    ensures Draft(ui, a, pid, x, y, w, h, system) == Draft(ui, b, pid, x, y, w, h, system)
  {
  }

  lemma DestroyNothing(d: Desk, idx: int)
    ensures idx >= |d.wins| ==> Destroyed(d, idx) == d
  {
  }

  lemma TidyDistinct(d: Desk)
    requires Tidy(d)
    ensures NoRepeats(d.z)
  {
  }

  lemma TidyRoom(d: Desk, slot: int)
    requires Tidy(d) && 0 <= slot < 8 && !d.wins[slot].used
    ensures |d.z| < 8
  {
    RoomLeft(d.z, slot);
  }

  lemma TidyUsed(d: Desk)
    requires Tidy(d)
    ensures forall i :: i in d.z ==> 0 <= i < 8 && d.wins[i].used
  {
  }
}
