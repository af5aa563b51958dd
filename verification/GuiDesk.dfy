/** The window manager as a state machine on values: slots, z-order and focus under every message and
    click. The arrays that hold it are in GuiServer. */
module GuiDesk {

  /** The parts of the layout the window code reads. The work area starts at the origin. */
  datatype Ui = Ui(workW: int, workH: int, minW: int, minH: int, defW: int, defH: int, margin: int, labelW: int,
                   frame: int, titleH: int)

  /** A layout of screen size: no coordinate computed from it alone leaves 32 bits. */
  ghost predicate Screen(ui: Ui) {
    && 0 <= ui.workW <= 0x10_0000 && 0 <= ui.workH <= 0x10_0000
    && 0 <= ui.minW <= 0x10_0000 && 0 <= ui.minH <= 0x10_0000
    && 0 <= ui.defW <= 0x10_0000 && 0 <= ui.defH <= 0x10_0000
    && 0 <= ui.margin <= 0x10_0000 && 0 <= ui.labelW <= 0x10_0000
  }

  datatype Window = Window(used: bool, system: bool, pid: nat, x: int, y: int, w: int, h: int)

  const UNUSED := Window(false, false, 0, 0, 0, 0, 0)

  /** The value a 32-bit signed register holds after computing `v`. */
  function S32(v: int): (r: int)
    ensures -0x8000_0000 <= r < 0x8000_0000
    ensures -0x8000_0000 <= v < 0x8000_0000 ==> r == v
  {
    (v + 0x8000_0000) % 0x1_0000_0000 - 0x8000_0000
  }

  predicate Int(v: int) { -0x8000_0000 <= v < 0x8000_0000 }

  function Max(a: int, b: int): int { if a < b then b else a }

  function Min(a: int, b: int): int { if a < b then a else b }

  // ---------------------------------------------------------------- clamping

  /** A size brought between the minimum and the work area, the work area winning. */
  function Sized(v: int, least: int, work: int): int { Max(Min(v, work), Min(least, work)) }

  /** A coordinate brought into the work area; the end of the window is a 32-bit sum. */
  function Shifted(v: int, size: int, work: int): int {
    var a := Max(v, 0);
    Max(if S32(a + size) > work then work - size else a, 0)
  }

  /** `clamp_window_to_work` */
  function Clamp(ui: Ui, win: Window): Window {
    var w, h := Sized(win.w, ui.minW, ui.workW), Sized(win.h, ui.minH, ui.workH);
    win.(w := w, h := h, x := Shifted(win.x, w, ui.workW), y := Shifted(win.y, h, ui.workH))
  }

  ghost predicate InWork(ui: Ui, win: Window) {
    && 0 <= win.x && 0 <= win.w && win.x + win.w <= ui.workW
    && 0 <= win.y && 0 <= win.h && win.y + win.h <= ui.workH
  }

  /** The far edges, before shifting, are 32-bit numbers. */
  ghost predicate EdgesFit(ui: Ui, win: Window) {
    && Max(win.x, 0) + Sized(win.w, ui.minW, ui.workW) < 0x8000_0000
    && Max(win.y, 0) + Sized(win.h, ui.minH, ui.workH) < 0x8000_0000
  }

  lemma ShiftExact(v: int, size: int, work: int)
    requires Int(v) && 0 <= size <= work <= 0x10_0000
    ensures 0 <= Shifted(v, size, work) && (Shifted(v, size, work) + size <= work <==> Max(v, 0) + size < 0x8000_0000)
  {
  }

  /** A clamped window lies in the work area exactly when neither far edge overflows. */
  lemma ClampExact(ui: Ui, win: Window)
    requires Screen(ui) && Int(win.x) && Int(win.y) && Int(win.w) && Int(win.h)
    ensures InWork(ui, Clamp(ui, win)) <==> EdgesFit(ui, win)
  {
    hide Shifted;
    ShiftExact(win.x, Sized(win.w, ui.minW, ui.workW), ui.workW);
    ShiftExact(win.y, Sized(win.h, ui.minH, ui.workH), ui.workH);
  }

  /** A window asked for at the far right of the coordinate range stays there. */
  lemma ClampOverflows()
    ensures var ui := Ui(1024, 740, 128, 130, 336, 222, 12, 96, 2, 22);
            Clamp(ui, Window(true, false, 7, 0x7FFF_FFFF, 0, 200, 200)).x == 0x7FFF_FFFF
  {
  }

  // ---------------------------------------------------------------- the desk

  datatype Desk = Desk(wins: seq<Window>, z: seq<int>, focused: int, cascade: int)

  const EMPTY := Desk([UNUSED, UNUSED, UNUSED, UNUSED, UNUSED, UNUSED, UNUSED, UNUSED], [], -1, 0)

  function Top(z: seq<int>): int { if z == [] then -1 else z[|z| - 1] }

  ghost predicate NoRepeats(z: seq<int>) { forall i, j :: 0 <= i < j < |z| ==> z[i] != z[j] }

  /** The z-order lists exactly the used slots, each once; focus is on its top; no two client windows
      share a pid. */
  ghost predicate Tidy(d: Desk) {
    && |d.wins| == 8 && NoRepeats(d.z)
    && (forall i :: i in d.z <==> 0 <= i < 8 && d.wins[i].used)
    && d.focused == Top(d.z) && 0 <= d.cascade < 120
    && (forall i, j :: 0 <= i < j < 8 && Client(d.wins[i]) && Client(d.wins[j]) ==> d.wins[i].pid != d.wins[j].pid)
  }

  predicate Client(w: Window) { w.used && !w.system }

  /** The first index whose window satisfies a test, or the number of slots. */
  function FindUnused(wins: seq<Window>, i: nat): (r: nat)
    requires i <= |wins|
    ensures i <= r <= |wins| && (r < |wins| ==> !wins[r].used) && forall k :: i <= k < r ==> wins[k].used
    decreases |wins| - i
  {
    if i == |wins| || !wins[i].used then i else FindUnused(wins, i + 1)
  }

  function FindPid(wins: seq<Window>, pid: nat, i: nat): (r: nat)
    requires i <= |wins|
    ensures i <= r <= |wins| && (r < |wins| ==> Client(wins[r]) && wins[r].pid == pid)
    ensures forall k :: i <= k < r ==> !(Client(wins[k]) && wins[k].pid == pid)
    decreases |wins| - i
  {
    if i == |wins| || (Client(wins[i]) && wins[i].pid == pid) then i else FindPid(wins, pid, i + 1)
  }

  /** `window_remove_from_z` */
  function Removed(z: seq<int>, idx: int): (r: seq<int>)
    ensures idx !in z ==> r == z
    decreases |z|
  {
    if z == [] then [] else if z[0] == idx then z[1..] else [z[0]] + Removed(z[1..], idx)
  }

  /** `window_focus` of a slot in use. */
  function Focused(d: Desk, idx: int): Desk { d.(z := Removed(d.z, idx) + [idx], focused := idx) }

  /** Where a new window goes, before clamping. */
  function Draft(ui: Ui, d: Desk, pid: nat, x: int, y: int, w: int, h: int, system: bool): Window {
    var w', h' := if w > 0 then w else ui.defW, if h > 0 then h else ui.defH;
    if x < 0 || y < 0 then
      var left := ui.margin + ui.labelW + 12;
      var baseX := if S32(left + w') > ui.workW - ui.margin then ui.margin else left;
      Window(true, system, pid, baseX + d.cascade, ui.margin + d.cascade, w', h')
    else Window(true, system, pid, x, y, w', h')
  }

  /** `window_create`: nothing happens when all slots are taken. */
  function Created(ui: Ui, d: Desk, pid: nat, x: int, y: int, w: int, h: int, system: bool): Desk {
    var slot := FindUnused(d.wins, 0);
    if slot == |d.wins| then d
    else
      Desk(d.wins[slot := Clamp(ui, Draft(ui, d, pid, x, y, w, h, system))],
           if |d.z| < 8 then d.z + [slot] else d.z, slot,
           if x < 0 || y < 0 then (d.cascade + 20) % 120 else d.cascade)
  }

  /** `window_destroy`: only a client window in use goes away. */
  function Destroyed(d: Desk, idx: int): Desk {
    if !(0 <= idx < |d.wins|) || !Client(d.wins[idx]) then d
    else
      var z := Removed(d.z, idx);
      Desk(d.wins[idx := d.wins[idx].(used := false)], z, if d.focused == idx then Top(z) else d.focused, d.cascade)
  }

  // ---------------------------------------------------------------- messages and clicks

  datatype Msg = Create(pid: nat, x: int, y: int, c: int) | Text(pid: nat) | Close(pid: nat) | Other

  /** The packed size of a create message: absent or zero halves ask for the default. */
  function WidthOf(c: int): int { if c > 0 && c / 0x1_0000 % 0x1_0000 > 0 then c / 0x1_0000 % 0x1_0000 else -1 }

  function HeightOf(c: int): int { if c > 0 && c % 0x1_0000 > 0 then c % 0x1_0000 else -1 }

  /** `handle_gui_message` */
  function Handled(ui: Ui, d: Desk, m: Msg): Desk {
    match m
    case Create(pid, x, y, c) =>
      var i := FindPid(d.wins, pid, 0);
      if i == |d.wins| then Created(ui, d, pid, x, y, WidthOf(c), HeightOf(c), false) else Focused(d, i)
    case Text(pid) => if FindPid(d.wins, pid, 0) == |d.wins| then Created(ui, d, pid, -1, -1, -1, -1, false) else d
    case Close(pid) => Destroyed(d, FindPid(d.wins, pid, 0))
    case Other => d
  }

  predicate Contains(w: Window, px: int, py: int) {
    w.x <= px < S32(w.x + w.w) && w.y <= py < S32(w.y + w.h)
  }

  /** `window_find_at`: the topmost window in the first `n` of the z-order that contains the point. */
  function Hit(wins: seq<Window>, z: seq<int>, n: nat, px: int, py: int): (r: int)
    requires n <= |z|
  {
    if n == 0 then -1
    else if 0 <= z[n - 1] < |wins| && wins[z[n - 1]].used && Contains(wins[z[n - 1]], px, py) then z[n - 1]
    else Hit(wins, z, n - 1, px, py)
  }

  /** `window_hit_close`: the point is on the close button of the title bar. */
  predicate OnClose(ui: Ui, w: Window, px: int, py: int) {
    var titleW, titleH := w.w - ui.frame * 2, Min(ui.titleH, w.h - ui.frame * 2);
    var button := Min(Max(titleH - 6, 12), titleH);
    var cx, cy := w.x + ui.frame + titleW - button - 4, w.y + ui.frame + (titleH - button) / 2;
    titleW > 0 && titleH > 0 && cx <= px < cx + button && cy <= py < cy + button
  }

  /** A press of the left button. */
  function Clicked(ui: Ui, d: Desk, px: int, py: int): Desk {
    var i := Hit(d.wins, d.z, |d.z|, px, py);
    if !(0 <= i < |d.wins|) then d
    else if !d.wins[i].system && OnClose(ui, d.wins[i], px, py) then Destroyed(d, i)
    else Focused(d, i)
  }

  datatype Event = Message(m: Msg) | Click(px: int, py: int)

  function Applied(ui: Ui, d: Desk, e: Event): Desk {
    match e
    case Message(m) => Handled(ui, d, m)
    case Click(px, py) => Clicked(ui, d, px, py)
  }

  // ---------------------------------------------------------------- z-order

  lemma ConsFresh(x: int, s: seq<int>)
    requires NoRepeats(s) && x !in s
    ensures NoRepeats([x] + s)
  {
  }

  lemma TailFresh(z: seq<int>)
    requires NoRepeats(z) && z != []
    ensures NoRepeats(z[1..]) && z[0] !in z[1..] && forall i :: i in z <==> i == z[0] || i in z[1..]
  {
    assert forall k :: 0 <= k < |z[1..]| ==> z[1..][k] == z[k + 1];
    assert z == [z[0]] + z[1..];
  }

  lemma {:induction false} RemovedMeans(z: seq<int>, idx: int)
    requires NoRepeats(z)
    ensures NoRepeats(Removed(z, idx)) && idx !in Removed(z, idx)
    ensures forall i :: i in Removed(z, idx) <==> i in z && i != idx
    ensures |Removed(z, idx)| == |z| - if idx in z then 1 else 0
    ensures Top(z) != idx ==> Top(Removed(z, idx)) == Top(z)
    decreases |z|
  {
    hide NoRepeats;
    NoneRepeated();
    if z != [] {
      TailFresh(z);
      RemovedMeans(z[1..], idx);
      if z[0] != idx { ConsFresh(z[0], Removed(z[1..], idx)); }
    }
  }

  lemma NoneRepeated()
    ensures NoRepeats([])
  {
  }

  /** The hit window is the topmost one containing the point; none is missed. */
  lemma {:induction false} HitMeans(wins: seq<Window>, z: seq<int>, n: nat, px: int, py: int)
    requires n <= |z| && forall k :: 0 <= k < |z| ==> 0 <= z[k] < |wins| && wins[z[k]].used
    ensures var r := Hit(wins, z, n, px, py);
            if r == -1 then forall k :: 0 <= k < n ==> !Contains(wins[z[k]], px, py)
            else exists k :: 0 <= k < n && z[k] == r && Contains(wins[r], px, py)
                             && forall j :: k < j < n ==> !Contains(wins[z[j]], px, py)
  {
    if n > 0 && !Contains(wins[z[n - 1]], px, py) { HitMeans(wins, z, n - 1, px, py); }
  }

  /** Inside the work area no edge overflows: the test is the rectangle itself. */
  lemma ContainsMeans(ui: Ui, w: Window, px: int, py: int)
    requires Screen(ui) && InWork(ui, w)
    ensures Contains(w, px, py) <==> w.x <= px < w.x + w.w && w.y <= py < w.y + w.h
  {
    hide S32;
  }

  // ---------------------------------------------------------------- what every operation keeps

  lemma AppendFresh(s: seq<int>, x: int)
    requires NoRepeats(s) && x !in s
    ensures NoRepeats(s + [x]) && Top(s + [x]) == x && forall i :: i in s + [x] <==> i in s || i == x
  {
  }

  lemma FocusTidy(d: Desk, idx: int)
    requires Tidy(d) && idx in d.z
    ensures Tidy(Focused(d, idx))
  {
    hide NoRepeats, Removed, Client, Top;
    RemovedMeans(d.z, idx);
    AppendFresh(Removed(d.z, idx), idx);
  }

  lemma {:induction false} Pigeons(z: seq<int>, n: nat)
    requires NoRepeats(z) && forall i :: i in z ==> 0 <= i < n
    ensures |z| <= n
    decreases n
  {
    if z != [] {
      var first := z[0];
      assert first in z;
    }
    if n > 0 {
      RemovedMeans(z, n - 1);
      Pigeons(Removed(z, n - 1), n - 1);
    }
  }

  lemma RoomLeft(z: seq<int>, free: int)
    requires NoRepeats(z) && (forall i :: i in z ==> 0 <= i < 8) && 0 <= free < 8 && free !in z
    ensures |z| < 8
  {
    AppendFresh(z, free);
    Pigeons(z + [free], 8);
  }

  /** A new window never repeats a client's pid. */
  ghost predicate PidFree(d: Desk, pid: nat) {
    forall i :: 0 <= i < |d.wins| ==> !(Client(d.wins[i]) && d.wins[i].pid == pid)
  }

  lemma CreateTidy(ui: Ui, d: Desk, pid: nat, x: int, y: int, w: int, h: int, system: bool)
    requires Tidy(d) && (system || PidFree(d, pid))
    ensures Tidy(Created(ui, d, pid, x, y, w, h, system))
  {
    hide NoRepeats, Clamp, Top, Draft;
    var slot := FindUnused(d.wins, 0);
    if slot < |d.wins| {
      RoomLeft(d.z, slot);
      AppendFresh(d.z, slot);
      NewWindow(ui, d, pid, x, y, w, h, system);
    }
  }

  lemma NewWindow(ui: Ui, d: Desk, pid: nat, x: int, y: int, w: int, h: int, system: bool)
    ensures var n := Clamp(ui, Draft(ui, d, pid, x, y, w, h, system)); n.used && n.system == system && n.pid == pid
  {
  }

  lemma DestroyTidy(d: Desk, idx: int)
    requires Tidy(d)
    ensures Tidy(Destroyed(d, idx))
  {
    hide NoRepeats, Removed, Top;
    if 0 <= idx < |d.wins| && Client(d.wins[idx]) { RemovedMeans(d.z, idx); }
  }

  lemma HitInZ(wins: seq<Window>, z: seq<int>, n: nat, px: int, py: int)
    requires n <= |z|
    ensures var r := Hit(wins, z, n, px, py); r == -1 || r in z
  {
  }

  /** Every message and click keeps the desk tidy. */
  lemma EventTidy(ui: Ui, d: Desk, e: Event)
    requires Tidy(d)
    ensures Tidy(Applied(ui, d, e))
  {
    hide Tidy, Created, Destroyed, Focused, Hit, OnClose;
    TidySize(d);
    match e {
      case Message(m) =>
        match m {
          case Create(pid, x, y, c) =>
            var i := FindPid(d.wins, pid, 0);
            if i == |d.wins| { CreateTidy(ui, d, pid, x, y, WidthOf(c), HeightOf(c), false); } else { FocusTidy(d, i); }
          case Text(pid) => if FindPid(d.wins, pid, 0) == |d.wins| { CreateTidy(ui, d, pid, -1, -1, -1, -1, false); }
          case Close(pid) => DestroyTidy(d, FindPid(d.wins, pid, 0));
          case Other =>
        }
      case Click(px, py) =>
        var i := Hit(d.wins, d.z, |d.z|, px, py);
        HitInZ(d.wins, d.z, |d.z|, px, py);
        if 0 <= i < |d.wins| {
          DestroyTidy(d, i);
          FocusTidy(d, i);
        }
    }
  }

  lemma TidySize(d: Desk)
    requires Tidy(d)
    ensures |d.wins| == 8 && forall i :: 0 <= i < 8 && d.wins[i].used ==> i in d.z
  {
  }

  /** System windows stay, with their place and size. */
  ghost predicate KeepsSystem(d: Desk, d': Desk) {
    && |d'.wins| == |d.wins|
    && forall i :: 0 <= i < |d.wins| && d.wins[i].used && d.wins[i].system ==> d'.wins[i] == d.wins[i]
  }

  lemma EventKeepsSystem(ui: Ui, d: Desk, e: Event)
    requires Tidy(d)
    ensures KeepsSystem(d, Applied(ui, d, e))
  {
    hide Tidy, Clamp, Draft, Removed, Hit, OnClose;
    TidySize(d);
  }

  // ---------------------------------------------------------------- the work area

  ghost predicate Inside(ui: Ui, d: Desk) { forall i :: 0 <= i < |d.wins| && d.wins[i].used ==> InWork(ui, d.wins[i]) }

  /** The message asks for coordinates whose far edges stay within 32 bits. */
  ghost predicate Benign(ui: Ui, e: Event) {
    e.Message? && e.m.Create? ==>
      && Int(e.m.x) && Int(e.m.y) && Int(e.m.c)
      && (e.m.x >= 0 && e.m.y >= 0 ==> EdgesFit(ui, Wanted(ui, e.m)))
  }

  /** The window a create message describes when it names its place. */
  function Wanted(ui: Ui, m: Msg): Window
    requires m.Create?
  {
    var w, h := WidthOf(m.c), HeightOf(m.c);
    Window(true, false, m.pid, m.x, m.y, if w > 0 then w else ui.defW, if h > 0 then h else ui.defH)
  }

  lemma DraftFits(ui: Ui, d: Desk, pid: nat, x: int, y: int, w: int, h: int, system: bool)
    requires Screen(ui) && 0 <= d.cascade < 120 && Int(x) && Int(y) && w < 0x1_0000 && h < 0x1_0000
    ensures var n := Draft(ui, d, pid, x, y, w, h, system);
            && Int(n.x) && Int(n.y) && Int(n.w) && Int(n.h)
            && (x < 0 || y < 0 ==> EdgesFit(ui, n))
  {
    hide S32;
  }

  lemma CreateInside(ui: Ui, d: Desk, pid: nat, x: int, y: int, w: int, h: int, system: bool)
    requires Screen(ui) && Inside(ui, d) && 0 <= d.cascade < 120 && Int(x) && Int(y) && w < 0x1_0000 && h < 0x1_0000
    requires x >= 0 && y >= 0 ==> EdgesFit(ui, Draft(ui, d, pid, x, y, w, h, system))
    ensures Inside(ui, Created(ui, d, pid, x, y, w, h, system))
  {
    hide Clamp, Draft, InWork, EdgesFit, Screen;
    DraftFits(ui, d, pid, x, y, w, h, system);
    ClampExact(ui, Draft(ui, d, pid, x, y, w, h, system));
  }

  lemma EventInside(ui: Ui, d: Desk, e: Event)
    requires Screen(ui) && Tidy(d) && Inside(ui, d) && Benign(ui, e)
    ensures Inside(ui, Applied(ui, d, e))
  {
    hide Created, Clamp, InWork, EdgesFit, Screen, Removed, Hit, OnClose;
    match e {
      case Message(m) =>
        if m.Create? && FindPid(d.wins, m.pid, 0) == |d.wins| {
          SizesFit(m.c);
          assert m.x >= 0 && m.y >= 0 ==>
                   Draft(ui, d, m.pid, m.x, m.y, WidthOf(m.c), HeightOf(m.c), false) == Wanted(ui, m);
          CreateInside(ui, d, m.pid, m.x, m.y, WidthOf(m.c), HeightOf(m.c), false);
        } else if m.Text? && FindPid(d.wins, m.pid, 0) == |d.wins| {
          CreateInside(ui, d, m.pid, -1, -1, -1, -1, false);
        }
      case Click(px, py) =>
    }
  }

  lemma SizesFit(c: int)
    ensures WidthOf(c) < 0x1_0000 && HeightOf(c) < 0x1_0000
  {
  }

  // ---------------------------------------------------------------- runs

  function Ran(ui: Ui, d: Desk, es: seq<Event>): Desk
    decreases |es|
  {
    if es == [] then d else Applied(ui, Ran(ui, d, es[..|es| - 1]), es[|es| - 1])
  }

  /** After the system window is made and through every sequence of messages and clicks: the z-order
      lists exactly the used slots, focus is on top, clients have at most one window, and system
      windows are never destroyed. */
  lemma {:induction false} RunsStayTidy(ui: Ui, d: Desk, es: seq<Event>)
    requires Tidy(d)
    ensures Tidy(Ran(ui, d, es)) && KeepsSystem(d, Ran(ui, d, es))
    decreases |es|
  {
    hide Tidy, Applied;
    if es != [] {
      RunsStayTidy(ui, d, es[..|es| - 1]);
      EventTidy(ui, Ran(ui, d, es[..|es| - 1]), es[|es| - 1]);
      EventKeepsSystem(ui, Ran(ui, d, es[..|es| - 1]), es[|es| - 1]);
    }
  }

  /** If no create message overflows, every window stays in the work area. */
  lemma {:induction false} RunsStayInside(ui: Ui, d: Desk, es: seq<Event>)
    requires Screen(ui) && Tidy(d) && Inside(ui, d) && forall i :: 0 <= i < |es| ==> Benign(ui, es[i])
    ensures Inside(ui, Ran(ui, d, es))
    decreases |es|
  {
    hide Tidy, Applied, Inside, Benign, Screen;
    if es != [] {
      RunsStayInside(ui, d, es[..|es| - 1]);
      RunsStayTidy(ui, d, es[..|es| - 1]);
      EventInside(ui, Ran(ui, d, es[..|es| - 1]), es[|es| - 1]);
    }
  }

  lemma StartTidy()
    ensures Tidy(EMPTY)
  {
  }
}
