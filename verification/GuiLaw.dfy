/** What clicks and messages do to the windows, told in coordinates and pids. */
module GuiLaw {
  import opened GuiDesk
  import opened GuiServer

  // ---------------------------------------------------------------- clicks

  /** The close button: a square in the title bar, four pixels from the bar's right end and centred in its
      height. The bar is as high as the layout says, or as the window allows; the button is six less than
      that, at least twelve, and no higher than the bar. */
  function BarHeight(ui: Ui, w: Window): int {
    if ui.titleH <= w.h - 2 * ui.frame then ui.titleH else w.h - 2 * ui.frame
  }

  function ButtonSide(bar: int): int { if bar >= 18 then bar - 6 else if bar >= 12 then 12 else bar }

  predicate OnButton(ui: Ui, w: Window, px: int, py: int) {
    var bar, right := BarHeight(ui, w), w.x + w.w - ui.frame - 4;
    var side := ButtonSide(bar);
    var top := w.y + ui.frame + (bar - side) / 2;
    w.w > 2 * ui.frame && bar > 0 && right - side <= px < right && top <= py < top + side
  }

  lemma ButtonIs(ui: Ui, w: Window, px: int, py: int)
    ensures OnClose(ui, w, px, py) <==> OnButton(ui, w, px, py)
  {
  }

  /** Slot `i` is the topmost window that contains the point. */
  ghost predicate Topmost(d: Desk, px: int, py: int, i: int) {
    exists k :: 0 <= k < |d.z| && d.z[k] == i && 0 <= i < |d.wins| && Contains(d.wins[i], px, py)
                && forall j :: k < j < |d.z| && 0 <= d.z[j] < |d.wins| ==> !Contains(d.wins[d.z[j]], px, py)
  }

  /** The z-order without entry `k`. */
  function Without(z: seq<int>, k: nat): seq<int>
    requires k < |z|
  {
    z[..k] + z[k + 1..]
  }

  lemma HitIsTopmost(d: Desk, px: int, py: int)
    requires Tidy(d)
    ensures var r := Hit(d.wins, d.z, |d.z|, px, py);
            (forall i :: Topmost(d, px, py, i) <==> i == r && 0 <= r < 8) && (r == -1 || 0 <= r < 8)
  {
    hide Contains, Hit, NoRepeats;
    InRange(d);
    HitMeans(d.wins, d.z, |d.z|, px, py);
    var r := Hit(d.wins, d.z, |d.z|, px, py);
    if r != -1 {
      var k :| 0 <= k < |d.z| && d.z[k] == r && Contains(d.wins[r], px, py)
               && forall j :: k < j < |d.z| ==> !Contains(d.wins[d.z[j]], px, py);
    }
  }

  lemma InRange(d: Desk)
    requires Tidy(d)
    ensures |d.wins| == 8 && NoRepeats(d.z) && forall k :: 0 <= k < |d.z| ==> 0 <= d.z[k] < 8 && d.wins[d.z[k]].used
  {
    forall k | 0 <= k < |d.z|
      ensures 0 <= d.z[k] < 8 && d.wins[d.z[k]].used
    {
      assert d.z[k] in d.z;
    }
  }

  /** `d'` is `d` with slot `i` on top of the z-order and in focus, and nothing else changed. */
  ghost predicate Raised(d: Desk, d': Desk, i: int) {
    && d'.wins == d.wins && d'.focused == i && d'.cascade == d.cascade
    && exists k :: 0 <= k < |d.z| && d.z[k] == i && d'.z == Without(d.z, k) + [i]
  }

  /** `d'` is `d` without the window in slot `i`; what was below it keeps its order. */
  ghost predicate Gone(d: Desk, d': Desk, i: int) {
    && 0 <= i < |d.wins| && d'.wins == d.wins[i := d.wins[i].(used := false)] && d'.cascade == d.cascade
    && d'.focused == Top(d'.z) && exists k :: 0 <= k < |d.z| && d.z[k] == i && d'.z == Without(d.z, k)
  }

  lemma RemovedIs(z: seq<int>, k: nat)
    requires NoRepeats(z) && k < |z|
    ensures Removed(z, z[k]) == Without(z, k)
  {
    forall j | 0 <= j < k
      ensures z[..k][j] != z[k]
    {
    }
    RemovedAt(z, k);
  }

  lemma FocusedRaises(d: Desk, i: int)
    requires Tidy(d) && i in d.z
    ensures Raised(d, Focused(d, i), i)
  {
    hide NoRepeats, Removed, Without;
    InRange(d);
    var k :| 0 <= k < |d.z| && d.z[k] == i;
    RemovedIs(d.z, k);
  }

  lemma DestroyedGone(d: Desk, i: int)
    requires Tidy(d) && 0 <= i < 8 && Client(d.wins[i])
    ensures Gone(d, Destroyed(d, i), i)
  {
    hide NoRepeats, Removed, Without;
    InRange(d);
    assert i in d.z;
    var k :| 0 <= k < |d.z| && d.z[k] == i;
    RemovedIs(d.z, k);
    DestroyTidy(d, i);
  }

  /** A click on the close button of the topmost client window under it removes that window. Any other click
      on a window puts the topmost one on top and in focus, and a click on none changes nothing. */
  lemma ClickMeans(ui: Ui, d: Desk, px: int, py: int)
    requires Tidy(d)
    ensures var d' := Clicked(ui, d, px, py);
            && (forall i :: Topmost(d, px, py, i) ==>
                  && 0 <= i < |d.wins|
                  && if !d.wins[i].system && OnButton(ui, d.wins[i], px, py) then Gone(d, d', i) else Raised(d, d', i))
            && ((forall i :: !Topmost(d, px, py, i)) ==> d' == d)
  {
    hide Tidy, Hit, OnClose, OnButton, Topmost, Gone, Raised, Destroyed, Focused;
    HitIsTopmost(d, px, py);
    InRangeSlots(d);
    var r := Hit(d.wins, d.z, |d.z|, px, py);
    HitInZ(d.wins, d.z, |d.z|, px, py);
    if 0 <= r < 8 {
      ButtonIs(ui, d.wins[r], px, py);
      if d.wins[r].system || !OnButton(ui, d.wins[r], px, py) {
        FocusedRaises(d, r);
      } else {
        DestroyedGone(d, r);
      }
      assert Topmost(d, px, py, r);
    } else {
      assert !Topmost(d, px, py, -1);
    }
  }

  lemma InRangeSlots(d: Desk)
    requires Tidy(d)
    ensures |d.wins| == 8 && forall i :: i in d.z ==> 0 <= i < 8 && d.wins[i].used
  {
  }

  /** A click takes a window away exactly when it is the topmost one under the point, a client's, and the
      point is on its close button. */
  lemma ClickCloses(ui: Ui, d: Desk, px: int, py: int, i: int)
    requires Tidy(d) && 0 <= i < 8 && d.wins[i].used
    ensures |Clicked(ui, d, px, py).wins| == 8
    ensures !Clicked(ui, d, px, py).wins[i].used <==>
            Topmost(d, px, py, i) && !d.wins[i].system && OnButton(ui, d.wins[i], px, py)
    ensures Clicked(ui, d, px, py).wins[i].used ==> Clicked(ui, d, px, py).wins[i] == d.wins[i]
  {
    hide Tidy, Hit, OnButton, Topmost, Clicked;
    InRangeSlots(d);
    HitIsTopmost(d, px, py);
    ClickMeans(ui, d, px, py);
    var r := Hit(d.wins, d.z, |d.z|, px, py);
    if 0 <= r < 8 { assert Topmost(d, px, py, r); }
  }

  // ---------------------------------------------------------------- messages

  /** A client window of `pid` is in slot `i`. */
  ghost predicate Owns(d: Desk, pid: nat, i: int) { 0 <= i < |d.wins| && Client(d.wins[i]) && d.wins[i].pid == pid }

  /** After a close message no client window of the sender is left, and every other window is as it was. */
  lemma CloseMeans(ui: Ui, d: Desk, pid: nat)
    requires Tidy(d)
    ensures var d' := Handled(ui, d, Close(pid));
            && |d'.wins| == |d.wins| && (forall i :: !Owns(d', pid, i))
            && (forall i :: 0 <= i < |d.wins| && !Owns(d, pid, i) ==> d'.wins[i] == d.wins[i])
            && ((forall i :: !Owns(d, pid, i)) ==> d' == d)
            && (forall i :: Owns(d, pid, i) ==> Gone(d, d', i))
  {
    hide Removed, NoRepeats, Gone;
    var r := FindPid(d.wins, pid, 0);
    if r < |d.wins| {
      DestroyedGone(d, r);
      assert Owns(d, pid, r);
    }
  }

  /** A size the message gives in half a word, the default for zero. */
  function Asked(half: nat, default_: int): int { if half > 0 then half else default_ }

  /** The rectangle lies in the work area and is no smaller than the least window. */
  ghost predicate Roomy(ui: Ui, x: int, y: int, w: int, h: int) {
    && 0 <= x && 0 <= y && ui.minW <= w && ui.minH <= h && 0 <= w && 0 <= h
    && x + w <= ui.workW && y + h <= ui.workH
  }

  lemma ClampKeeps(ui: Ui, win: Window)
    requires Screen(ui) && Roomy(ui, win.x, win.y, win.w, win.h)
    ensures Clamp(ui, win) == win
  {
    hide S32;
  }

  /** `d'` is `d` with `win` in the lowest slot unused before, on top and in focus. */
  ghost predicate Opened(d: Desk, d': Desk, win: Window) {
    exists i :: 0 <= i < |d.wins| && !d.wins[i].used && (forall k :: 0 <= k < i ==> d.wins[k].used)
                && d'.wins == d.wins[i := win] && d'.z == d.z + [i] && d'.focused == i
  }

  lemma CreatedOpens(ui: Ui, d: Desk, pid: nat, x: int, y: int, w: int, h: int)
    requires Tidy(d) && exists i :: 0 <= i < 8 && !d.wins[i].used
    ensures Opened(d, Created(ui, d, pid, x, y, w, h, false), Clamp(ui, Draft(ui, d, pid, x, y, w, h, false)))
  {
    hide Clamp, Draft, NoRepeats, Top;
    var slot := FindUnused(d.wins, 0);
    InRangeSlots(d);
    RoomLeft(d.z, slot);
  }

  /** A create message from a process without a window, with a slot free and a rectangle that fits: the
      lowest free slot gets a client window of that process at that place, its width from the high half of
      the size word and its height from the low half, on top and in focus. */
  lemma CreateMeans(ui: Ui, d: Desk, pid: nat, x: int, y: int, hi: nat, lo: nat)
    requires Tidy(d) && Screen(ui) && hi < 0x8000 && lo < 0x1_0000 && (hi > 0 || lo > 0)
    requires (forall i :: !Owns(d, pid, i)) && exists i :: 0 <= i < 8 && !d.wins[i].used
    requires Roomy(ui, x, y, Asked(hi, ui.defW), Asked(lo, ui.defH))
    ensures var win := Window(true, false, pid, x, y, Asked(hi, ui.defW), Asked(lo, ui.defH));
            Opened(d, Handled(ui, d, Create(pid, x, y, hi * 0x1_0000 + lo)), win)
  {
    hide Clamp, Opened, Created, Screen;
    var c := hi * 0x1_0000 + lo;
    HalvesIs(hi, lo);
    var win := Window(true, false, pid, x, y, Asked(hi, ui.defW), Asked(lo, ui.defH));
    ClampKeeps(ui, win);
    var r := FindPid(d.wins, pid, 0);
    assert !Owns(d, pid, r);
    CreatedOpens(ui, d, pid, x, y, WidthOf(c), HeightOf(c));
    assert Draft(ui, d, pid, x, y, WidthOf(c), HeightOf(c), false) == win;
  }

  lemma HalvesIs(hi: nat, lo: nat)
    requires hi < 0x8000 && lo < 0x1_0000 && (hi > 0 || lo > 0)
    ensures WidthOf(hi * 0x1_0000 + lo) == (if hi > 0 then hi else -1)
    ensures HeightOf(hi * 0x1_0000 + lo) == (if lo > 0 then lo else -1)
  {
  }

  /** A create message from a process that has a window puts that window on top; one that finds no slot free
      changes nothing. */
  lemma CreateAgain(ui: Ui, d: Desk, pid: nat, x: int, y: int, c: int)
    requires Tidy(d)
    ensures forall i :: Owns(d, pid, i) ==> Raised(d, Handled(ui, d, Create(pid, x, y, c)), i)
    ensures (forall i :: !Owns(d, pid, i)) && (forall i :: 0 <= i < 8 ==> d.wins[i].used) ==>
              Handled(ui, d, Create(pid, x, y, c)) == d
  {
    hide Raised, Focused, Clamp, Draft, NoRepeats;
    var r := FindPid(d.wins, pid, 0);
    if r < |d.wins| {
      assert r in d.z;
      FocusedRaises(d, r);
      assert Owns(d, pid, r);
    }
  }

  /** Text from a process without a window opens one of the default size, a step further down the cascade,
      right of the icons; text from one that has a window changes no window. */
  lemma TextMeans(ui: Ui, d: Desk, pid: nat)
    requires Tidy(d) && Screen(ui)
    ensures (exists i :: Owns(d, pid, i)) ==> Handled(ui, d, Text(pid)) == d
    ensures var x, y := ui.margin + ui.labelW + 12 + d.cascade, ui.margin + d.cascade;
            (forall i :: !Owns(d, pid, i)) && (exists i :: 0 <= i < 8 && !d.wins[i].used)
            && Roomy(ui, x, y, ui.defW, ui.defH) && x - d.cascade + ui.defW <= ui.workW - ui.margin ==>
              && Opened(d, Handled(ui, d, Text(pid)), Window(true, false, pid, x, y, ui.defW, ui.defH))
              && Handled(ui, d, Text(pid)).cascade == (d.cascade + 20) % 120
  {
    hide Clamp, Opened, S32, NoRepeats;
    var r := FindPid(d.wins, pid, 0);
    var x, y := ui.margin + ui.labelW + 12 + d.cascade, ui.margin + d.cascade;
    if r < |d.wins| {
      assert Owns(d, pid, r);
    } else if (exists i :: 0 <= i < 8 && !d.wins[i].used) && Roomy(ui, x, y, ui.defW, ui.defH)
           && x - d.cascade + ui.defW <= ui.workW - ui.margin {
      ClampKeeps(ui, Window(true, false, pid, x, y, ui.defW, ui.defH));
      CreatedOpens(ui, d, pid, -1, -1, -1, -1);
    }
  }

  // ---------------------------------------------------------------- one window

  /** A client window at (100, 100) of 200 by 200: a click at (150, 200) keeps it, one at (280, 110) takes it
      away. */
  lemma ButtonPlace()
    ensures var ui := Ui(1024, 740, 128, 130, 336, 222, 12, 96, 2, 22);
            var w := Window(true, false, 7, 100, 100, 200, 200);
            !OnButton(ui, w, 150, 200) && OnButton(ui, w, 280, 110)
  {
  }
}
