/**
 * The input side of sdl.cpp: the mouse dispatcher that hands an SDL event to the items
 * under the pointer (overlay items first), the per-frame hover and click selection, the
 * keyboard manager with its text-edit buffer, and the key and mouse callback tables.
 * Callbacks are not run: each call is an entry appended to a log.
 */
module Input {
  import opened Wrappers
  import opened U32
  import opened Items

  const ButtonLeft := 1
  const ButtonRight := 3

  /** The event tags of global mouse callbacks (MOUSE_* of include/sdl.h). */
  const MouseMotion := 0
  const MouseButtonUp := 1
  const MouseButtonDown := 2
  const MouseWheelUp := 3
  const MouseWheelDown := 4

  /** SDL key codes the text editor looks at. */
  const KeyBackspace := 8
  const KeyReturn := 13
  const KeySpace := 32
  const KeyDelete := 127
  const KeyA := 97
  const KeyZ := 122

  datatype Event =
    | WindowEnter
    | WindowLeave
    | OtherWindow
    | Motion(x: int, y: int)
    | ButtonDown(button: int)
    | ButtonUp(button: int, clicks: int)
    | Wheel(timestamp: u32, y: int)
    | KeyDown(scancode: int, sym: int)
    | KeyUp(scancode: int)
    | Other

  /** A callback call: an item's hover callback with its relative position, another item callback, a global one. */
  datatype Fired =
    | Over(cb: Callback, x: int, y: int)
    | Called(cb: Callback)
    | GlobalMouse(cb: Callback, a: int, b: int)
    | Text(cb: Callback)

  /** A registered key: its scancode, the key-down callback and the optional key-up one. */
  datatype KeyCb = KeyCb(code: int, cb: Callback, cbUp: Option<Callback>)

  /** A registered global mouse callback and the MOUSE_* tag it listens to. */
  datatype MouseCb = MouseCb(eventType: int, cb: Callback)

  /** The text being typed: keyboard_text_buf, its index and bound, and the RETURN callback. */
  datatype TextTarget = TextTarget(buf: array?<char>, index: nat, max: nat, cb: Option<Callback>)

  const NoText := TextTarget(null, 0, 0, None)

  /** What the dispatcher reads of an item. */
  datatype ItemView = ItemView(
    rect: Rect, overlay: int, over: Option<Callback>,
    clickLeft: Option<Callback>, clickRight: Option<Callback>,
    doubleClickLeft: Option<Callback>, doubleClickRight: Option<Callback>,
    wheelUp: Option<Callback>, wheelDown: Option<Callback>,
    editable: int, buffer: array?<char>, bufferSize: nat, editCb: Option<Callback>)

  function View(i: Item): ItemView
    reads i`rect, i`overlay, i`over, i`clickLeft, i`clickRight, i`doubleClickLeft, i`doubleClickRight
    reads i`wheelUp, i`wheelDown, i`editable, i`buffer, i`bufferSize, i`editCb
  {
    ItemView(i.rect, i.overlay, i.over, i.clickLeft, i.clickRight, i.doubleClickLeft, i.doubleClickRight,
             i.wheelUp, i.wheelDown, i.editable, i.buffer, i.bufferSize, i.editCb)
  }

  function Views(items: seq<Item>): (vs: seq<ItemView>)
    reads items`rect, items`overlay, items`over, items`clickLeft, items`clickRight, items`doubleClickLeft
    reads items`doubleClickRight, items`wheelUp, items`wheelDown, items`editable, items`buffer, items`bufferSize
    reads items`editCb
    ensures |vs| == |items| && forall j | 0 <= j < |items| :: vs[j] == View(items[j])
  {
    if items == [] then [] else Views(items[..|items| - 1]) + [View(items[|items| - 1])]
  }

  /** The pointer is on the rectangle, which includes its left and top edges but not its right and bottom ones. */
  predicate Hit(r: Rect, mx: int, my: int)
  {
    r.x <= mx < r.x + r.w && r.y <= my < r.y + r.h
  }

  /** The pointer in window coordinates and the camera offset (vx, vy) that get_virtual computes (zoom 1). */
  datatype Pointer = Pointer(x: int, y: int, vx: int, vy: int)

  /**
   * The pointer as the item sees it: overlay items use window coordinates, the others the
   * scene, shifted by the camera offset.
   */
  function PointerX(v: ItemView, m: Pointer): int
  {
    if v.overlay != 0 then m.x else m.x - m.vx
  }

  function PointerY(v: ItemView, m: Pointer): int
  {
    if v.overlay != 0 then m.y else m.y - m.vy
  }

  /** The pointer is on the item, in the coordinates the item uses. */
  predicate Under(v: ItemView, m: Pointer)
  {
    Hit(v.rect, PointerX(v, m), PointerY(v, m))
  }

  /** The state one pass over the item list carries from item to item. */
  datatype Pass = Pass(text: TextTarget, stamp: u32, acted: bool, skip: bool, log: seq<Fired>)

  function Opt(cb: Option<Callback>, when: bool): (r: seq<Fired>)
    ensures |r| <= 1 && (r != [] <==> when && cb.Some?)
  {
    if when && cb.Some? then [Called(cb.value)] else []
  }

  /**
   * The callbacks of a button release on an item: the single-click one of the released
   * side for one click, the double-click one for two, nothing for any other count.
   */
  function UpCalls(v: ItemView, button: int, clicks: int): (r: seq<Fired>)
    ensures |r| <= 1
    ensures clicks != 1 && clicks != 2 ==> r == []
    ensures button != ButtonLeft && button != ButtonRight ==> r == []
    ensures clicks == 1 && button == ButtonLeft ==> r == Opt(v.clickLeft, true)
    ensures clicks == 2 && button == ButtonRight ==> r == Opt(v.doubleClickRight, true)
  {
    Opt(v.clickLeft, button == ButtonLeft && clicks == 1) +
    Opt(v.clickRight, button == ButtonRight && clicks == 1) +
    Opt(v.doubleClickLeft, button == ButtonLeft && clicks == 2) +
    Opt(v.doubleClickRight, button == ButtonRight && clicks == 2)
  }

  /** The text target after a button press on an item: reset, then the item's buffer if it is editable. */
  function PressText(v: ItemView): TextTarget
  {
    if v.editable != 0 && v.buffer != null then TextTarget(v.buffer, 0, v.bufferSize, v.editCb) else NoText
  }

  /** What the event does on an item under the pointer at (mx, my). */
  function OnItem(p: Pass, ev: Event, v: ItemView, mx: int, my: int): Pass
  {
    match ev
    case Motion(_, _) =>
      p.(log := p.log + (if v.over.Some? then [Over(v.over.value, mx - v.rect.x, my - v.rect.y)] else []),
         acted := true)
    case ButtonDown(_) => p.(text := PressText(v), acted := true)
    case ButtonUp(b, c) => p.(log := p.log + UpCalls(v, b, c), acted := true)
    case Wheel(ts, y) =>
      if ts != p.stamp && y > 0 && v.wheelUp.Some? then
        p.(stamp := ts, log := p.log + [Called(v.wheelUp.value)], acted := true)
      else if ts != p.stamp && y < 0 && v.wheelDown.Some? then
        p.(stamp := ts, log := p.log + [Called(v.wheelDown.value)], acted := true)
      else p
    case _ => p
  }

  /** The item's `clicked` flag after the event reaches it. */
  function ClickedOn(ev: Event, v: ItemView, clicked: int): int
  {
    match ev
    case ButtonDown(b) =>
      if (v.clickLeft.Some? && b == ButtonLeft) || (v.clickRight.Some? && b == ButtonRight) then 1 else clicked
    case ButtonUp(_, _) => 0
    case _ => clicked
  }

  /** The item's `clicked` flag after a pass: changed only when the item is reached. */
  function ClickedIn(ev: Event, v: ItemView, overlayPass: bool, m: Pointer, clicked: int): int
  {
    if Reached(v, overlayPass, m) then ClickedOn(ev, v, clicked) else clicked
  }

  /** The item takes part in this pass and the pointer is on it. */
  predicate Reached(v: ItemView, overlayPass: bool, m: Pointer)
  {
    (v.overlay != 0) == overlayPass && Under(v, m)
  }

  /** One item of a pass: skipped when it belongs to the other pass or is not under the pointer. */
  function Visit(p: Pass, ev: Event, v: ItemView, overlayPass: bool, m: Pointer): Pass
  {
    if Reached(v, overlayPass, m) then
      OnItem(p.(skip := p.skip || overlayPass), ev, v, PointerX(v, m), PointerY(v, m))
    else p
  }

  /** A pass over the first n items of the list, in list order. */
  function Walk(p: Pass, ev: Event, vs: seq<ItemView>, n: nat, overlayPass: bool, m: Pointer): Pass
    requires n <= |vs|
  {
    if n == 0 then p else Visit(Walk(p, ev, vs, n - 1, overlayPass, m), ev, vs[n - 1], overlayPass, m)
  }

  /** Both passes: overlay items first, then the others unless an overlay item was under the pointer. */
  function Passes(p: Pass, ev: Event, vs: seq<ItemView>, m: Pointer): Pass
  {
    var first := Walk(p, ev, vs, |vs|, true, m);
    if first.skip then first else Walk(first, ev, vs, |vs|, false, m)
  }

  /** An item's `clicked` flag after both passes. */
  function ClickedAfter(ev: Event, vs: seq<ItemView>, j: nat, clicked: int, m: Pointer): int
    requires j < |vs|
  {
    var skip := Walk(Pass(NoText, 0, false, false, []), ev, vs, |vs|, true, m).skip;
    if Reached(vs[j], true, m) || (!skip && Reached(vs[j], false, m))
    then ClickedOn(ev, vs[j], clicked)
    else clicked
  }

  /** One global mouse callback on the event. */
  function GlobalCall(m: MouseCb, ev: Event, mouseX: int, mouseY: int, stamp: u32): seq<Fired>
  {
    match ev
    case Motion(_, _) => if m.eventType == MouseMotion then [GlobalMouse(m.cb, mouseX, mouseY)] else []
    case ButtonDown(b) => if m.eventType == MouseButtonDown then [GlobalMouse(m.cb, b, 0)] else []
    case ButtonUp(b, _) => if m.eventType == MouseButtonUp then [GlobalMouse(m.cb, b, 0)] else []
    case Wheel(ts, y) =>
      if ts != stamp && ((y > 0 && m.eventType == MouseWheelUp) || (y < 0 && m.eventType == MouseWheelDown))
      then [GlobalMouse(m.cb, y, 0)] else []
    case _ => []
  }

  /** The global mouse callbacks on the event, in registration order. */
  function GlobalCalls(ms: seq<MouseCb>, ev: Event, mouseX: int, mouseY: int, stamp: u32): seq<Fired>
    decreases |ms|
  {
    if ms == [] then []
    else GlobalCalls(ms[..|ms| - 1], ev, mouseX, mouseY, stamp) + GlobalCall(ms[|ms| - 1], ev, mouseX, mouseY, stamp)
  }

  /** The window-enter and window-leave events switch the pointer in and out. */
  function PointerInAfter(mouseIn: bool, ev: Event): bool
  {
    match ev
    case WindowEnter => true
    case WindowLeave => false
    case _ => mouseIn
  }

  /** The text buffer can be written at its index and the terminator after a character fits. */
  predicate TextValid(t: TextTarget)
    reads t.buf
  {
    t.buf != null ==> 1 <= t.max <= t.buf.Length && t.index < t.max
  }

  /** The character a printable key writes: a to z become upper case with shift held. */
  function Typed(sym: int, shift: bool): (c: char)
    requires KeySpace <= sym < KeyDelete
    ensures 32 <= c as int < 127
    ensures !shift || !(KeyA <= sym <= KeyZ) ==> c as int == sym
    ensures shift && KeyA <= sym <= KeyZ ==> c as int == sym - 32 && 'A' <= c <= 'Z'
  {
    if shift && KeyA <= sym <= KeyZ then (sym - 32) as char else sym as char
  }

  /**
   * A key typed into the text buffer (its contents, index and bound): DELETE and
   * BACKSPACE step back (never below 0) and terminate there; a printable key writes its
   * character, moves on, and terminates after it, the index stopping at max-1 so that the
   * last cell always holds the terminator; any other key leaves the buffer alone.
   */
  function TypeKey(buf: seq<char>, index: nat, max: nat, sym: int, shift: bool): (r: (seq<char>, nat))
    requires 1 <= max <= |buf| && index < max
    ensures |r.0| == |buf| && r.1 < max
    ensures (sym == KeyDelete || sym == KeyBackspace) ==>
      r.1 == (if index > 0 then index - 1 else 0) && r.0 == buf[r.1 := 0 as char]
    ensures KeySpace <= sym < KeyDelete && index + 1 < max ==>
      r.1 == index + 1 && r.0 == buf[index := Typed(sym, shift)][index + 1 := 0 as char]
    ensures KeySpace <= sym < KeyDelete && index + 1 == max ==> r.1 == index && r.0 == buf[index := 0 as char]
    ensures !(KeySpace <= sym <= KeyDelete) && sym != KeyBackspace ==> r == (buf, index)
  {
    if sym == KeyDelete || sym == KeyBackspace then
      var i := if index > 0 then index - 1 else 0;
      (buf[i := 0 as char], i)
    else if KeySpace <= sym < KeyDelete then
      var b := buf[index := Typed(sym, shift)];
      var i := if index + 1 >= max then index else index + 1;
      (b[i := 0 as char], i)
    else (buf, index)
  }

  /** Keys typed one after the other. */
  function TypeKeys(buf: seq<char>, index: nat, max: nat, syms: seq<int>, shift: bool): (r: (seq<char>, nat))
    requires 1 <= max <= |buf| && index < max
    ensures |r.0| == |buf| && r.1 < max
    decreases |syms|
  {
    if syms == [] then (buf, index)
    else
      var (b, i) := TypeKey(buf, index, max, syms[0], shift);
      TypeKeys(b, i, max, syms[1..], shift)
  }

  predicate Printable(syms: seq<int>)
  {
    forall k | 0 <= k < |syms| :: KeySpace <= syms[k] < KeyDelete
  }

  /**
   * Printable keys typed where they fit end up, in order, from the index on, followed by
   * the terminator, and the text before the index is untouched.
   */
  lemma {:induction false} TypeKeysWrites(buf: seq<char>, index: nat, max: nat, syms: seq<int>, shift: bool)
    requires 1 <= max <= |buf| && index < max
    requires Printable(syms) && index + |syms| < max
    ensures var (b, i) := TypeKeys(buf, index, max, syms, shift);
      i == index + |syms| && b[..index] == buf[..index] && (syms != [] ==> b[i] == 0 as char) &&
      forall k | 0 <= k < |syms| :: b[index + k] == Typed(syms[k], shift)
    decreases |syms|
  {
    if syms != [] {
      var (b1, i1) := TypeKey(buf, index, max, syms[0], shift);
      assert i1 == index + 1;
      assert Printable(syms[1..]) by {
        forall k | 0 <= k < |syms[1..]| ensures KeySpace <= syms[1..][k] < KeyDelete {
          assert syms[1..][k] == syms[k + 1];
        }
      }
      TypeKeysWrites(b1, i1, max, syms[1..], shift);
      var (b, i) := TypeKeys(b1, i1, max, syms[1..], shift);
      assert b[..i1] == b1[..i1];
      forall k | 0 <= k < |syms| ensures b[index + k] == Typed(syms[k], shift) {
        if k == 0 {
          assert b[index] == b[..i1][index];
        } else {
          assert syms[1..][k - 1] == syms[k];
        }
      }
      assert b[..index] == b[..i1][..index];
    }
  }

  /** However many keys are typed, the index stays below the bound and the buffer keeps its size. */
  lemma {:induction false} TypeKeysInBounds(buf: seq<char>, index: nat, max: nat, syms: seq<int>, shift: bool)
    requires 1 <= max <= |buf| && index < max
    ensures TypeKeys(buf, index, max, syms, shift).1 < max
    ensures |TypeKeys(buf, index, max, syms, shift).0| == |buf|
    ensures syms != [] && (syms[|syms| - 1] == KeyDelete || KeySpace <= syms[|syms| - 1] < KeyDelete) ==>
      var (b, i) := TypeKeys(buf, index, max, syms, shift); b[i] == 0 as char
    decreases |syms|
  {
    if syms != [] {
      var (b1, i1) := TypeKey(buf, index, max, syms[0], shift);
      TypeKeysInBounds(b1, i1, max, syms[1..], shift);
      if |syms| == 1 {
        assert syms[1..] == [];
      } else {
        assert syms[1..][|syms[1..]| - 1] == syms[|syms| - 1];
      }
    }
  }

  /** The key callbacks a key event fires: key-down callbacks (no text target) or key-up ones, of matching codes. */
  function KeyCalls(ks: seq<KeyCb>, code: int, up: bool): (r: seq<Fired>)
    ensures |r| <= |ks|
    decreases |ks|
  {
    if ks == [] then []
    else
      var k := ks[|ks| - 1];
      var last := if k.code != code then [] else if up then Opt(k.cbUp, true) else [Called(k.cb)];
      KeyCalls(ks[..|ks| - 1], code, up) + last
  }

  /** Every callback a key event fires was registered for that scancode, as a key-up callback for a release. */
  lemma {:induction false} KeyCallsFromTable(ks: seq<KeyCb>, code: int, up: bool)
    ensures forall f | f in KeyCalls(ks, code, up) ::
      exists k | k in ks :: k.code == code && (if up then k.cbUp == Some(f.cb) else k.cb == f.cb)
    decreases |ks|
  {
    if ks != [] {
      var init := ks[..|ks| - 1];
      KeyCallsFromTable(init, code, up);
      forall f | f in KeyCalls(ks, code, up)
        ensures exists k | k in ks :: k.code == code && (if up then k.cbUp == Some(f.cb) else k.cb == f.cb)
      {
        if f in KeyCalls(init, code, up) {
          var k :| k in init && k.code == code && (if up then k.cbUp == Some(f.cb) else k.cb == f.cb);
          assert k in ks;
        } else {
          assert ks[|ks| - 1] in ks;
        }
      }
    }
  }

  /** Whether the key event is consumed: only a key press while text is being typed. */
  function KeyHandled(ev: Event, t: TextTarget): bool
  {
    ev.KeyDown? && t.buf != null
  }

  /**
   * The file-scope state of sdl.cpp that input works on: whether the pointer is in the
   * window and where, the last wheel timestamp, the text target, and the callback tables.
   */
  class Input {
    var mouseIn: bool
    var mouseX: int
    var mouseY: int
    var wheelStamp: u32
    var text: TextTarget
    var keyCallbacks: seq<KeyCb>
    var mouseCallbacks: seq<MouseCb>
    var log: seq<Fired>

    constructor()
      ensures mouseIn && mouseX == 0 && mouseY == 0 && wheelStamp == 0 && text == NoText
      ensures keyCallbacks == [] && mouseCallbacks == [] && log == []
    {
      mouseIn := true;
      mouseX := 0;
      mouseY := 0;
      wheelStamp := 0;
      text := NoText;
      keyCallbacks := [];
      mouseCallbacks := [];
      log := [];
    }

    /** sdl_keyboard_text_init: a null buffer changes nothing; otherwise typing starts at index 0 with bound `size`. */
    method TextInit(buf: array?<char>, size: nat, cb: Option<Callback>)
      modifies this`text
      ensures text == if buf == null then old(text) else TextTarget(buf, 0, size, cb)
    {
      if buf == null {
        return;
      }
      text := TextTarget(buf, 0, size, cb);
    }

    /** sdl_keyboard_text_reset: no text target. */
    method TextReset()
      modifies this`text
      ensures text == NoText
    {
      text := NoText;
    }

    /** sdl_keyboard_text_get_buf. */
    method TextGetBuf() returns (buf: array?<char>)
      ensures buf == text.buf
    {
      buf := text.buf;
    }

    /** sdl_add_keycb: the key goes at the end of the table. */
    method AddKeyCb(code: int, cb: Callback, cbUp: Option<Callback>)
      modifies this`keyCallbacks
      ensures keyCallbacks == old(keyCallbacks) + [KeyCb(code, cb, cbUp)]
    {
      keyCallbacks := keyCallbacks + [KeyCb(code, cb, cbUp)];
    }

    /** sdl_add_mousecb: the callback goes at the end of the table. */
    method AddMouseCb(eventType: int, cb: Callback)
      modifies this`mouseCallbacks
      ensures mouseCallbacks == old(mouseCallbacks) + [MouseCb(eventType, cb)]
    {
      mouseCallbacks := mouseCallbacks + [MouseCb(eventType, cb)];
    }

    /** The dispatcher's work on one item: nothing unless it is in this pass and under the pointer. */
    method VisitItem(I: Item, ghost v: ItemView, ev: Event, overlayPass: bool, vx: int, vy: int, acted: bool, skip: bool)
      returns (acted': bool, skip': bool)
      requires v == View(I)
      modifies this`text, this`wheelStamp, this`log, I`clicked
      ensures Pass(text, wheelStamp, acted', skip', log) ==
        Visit(Pass(old(text), old(wheelStamp), acted, skip, old(log)), ev, v, overlayPass, Pointer(mouseX, mouseY, vx, vy))
      ensures I.clicked == ClickedIn(ev, v, overlayPass, Pointer(mouseX, mouseY, vx, vy), old(I.clicked))
    {
      acted', skip' := acted, skip;
      if (I.overlay != 0) != overlayPass {
        return;
      }
      var mx := if I.overlay != 0 then mouseX else mouseX - vx;
      var my := if I.overlay != 0 then mouseY else mouseY - vy;
      if !(I.rect.x <= mx && I.rect.x + I.rect.w > mx && I.rect.y <= my && I.rect.y + I.rect.h > my) {
        return;
      }
      if overlayPass {
        skip' := true;
      }
      acted' := OnItemAt(I, v, ev, mx, my, acted', skip');
    }

    /** The switch on the event type for an item under the pointer at (mx, my). */
    method OnItemAt(I: Item, ghost v: ItemView, ev: Event, mx: int, my: int, acted: bool, ghost skip: bool) returns (acted': bool)
      requires v == View(I)
      modifies this`text, this`wheelStamp, this`log, I`clicked
      ensures Pass(text, wheelStamp, acted', skip, log) ==
        OnItem(Pass(old(text), old(wheelStamp), acted, skip, old(log)), ev, v, mx, my)
      ensures I.clicked == ClickedOn(ev, v, old(I.clicked))
    {
      acted' := acted;
      match ev {
        case Motion(_, _) =>
          if I.over.Some? {
            log := log + [Over(I.over.value, mx - I.rect.x, my - I.rect.y)];
          }
          acted' := true;
        case ButtonDown(b) =>
          OnPress(I, b);
          acted' := true;
        case ButtonUp(b, c) =>
          OnRelease(I, b, c);
          acted' := true;
        case Wheel(ts, y) =>
          acted' := OnWheel(I, ts, y, acted, skip);
        case _ =>
      }
    }

    /** A button press on an item: the text target moves to it (or away), and `clicked` is set for a side it handles. */
    method OnPress(I: Item, b: int)
      modifies this`text, I`clicked
      ensures text == PressText(View(I))
      ensures I.clicked == ClickedOn(ButtonDown(b), View(I), old(I.clicked))
    {
      TextReset();
      if I.editable != 0 {
        TextInit(I.buffer, I.bufferSize, I.editCb);
      }
      if I.clickLeft.Some? && b == ButtonLeft {
        I.clicked := 1;
      }
      if I.clickRight.Some? && b == ButtonRight {
        I.clicked := 1;
      }
    }

    /** A button release on an item: `clicked` is cleared and the matching click callback runs. */
    method OnRelease(I: Item, b: int, c: int)
      modifies this`log, I`clicked
      ensures log == old(log) + UpCalls(View(I), b, c)
      ensures I.clicked == 0
    {
      I.clicked := 0;
      if I.clickLeft.Some? && b == ButtonLeft && c == 1 {
        log := log + [Called(I.clickLeft.value)];
      }
      if I.clickRight.Some? && b == ButtonRight && c == 1 {
        log := log + [Called(I.clickRight.value)];
      }
      if I.doubleClickLeft.Some? && b == ButtonLeft && c == 2 {
        log := log + [Called(I.doubleClickLeft.value)];
      }
      if I.doubleClickRight.Some? && b == ButtonRight && c == 2 {
        log := log + [Called(I.doubleClickRight.value)];
      }
    }

    /** A wheel turn on an item: its wheel callback runs unless this timestamp was already served. */
    method OnWheel(I: Item, ts: u32, y: int, acted: bool, ghost skip: bool) returns (acted': bool)
      modifies this`wheelStamp, this`log
      ensures Pass(text, wheelStamp, acted', skip, log) ==
        OnItem(Pass(text, old(wheelStamp), acted, skip, old(log)), Wheel(ts, y), View(I), 0, 0)
    {
      acted' := acted;
      if ts != wheelStamp {
        if y > 0 && I.wheelUp.Some? {
          wheelStamp := ts;
          log := log + [Called(I.wheelUp.value)];
          acted' := true;
        }
        if y < 0 && I.wheelDown.Some? {
          wheelStamp := ts;
          log := log + [Called(I.wheelDown.value)];
          acted' := true;
        }
      }
    }

    /** One pass of sdl_mouse_manager down the item list, whose items look as `vs` records. */
    method RunPass(list: ItemList, ghost vs: seq<ItemView>, ev: Event, overlayPass: bool, vx: int, vy: int, acted: bool, skip: bool)
      returns (acted': bool, skip': bool)
      requires list.Valid() && |vs| == |list.items| && forall j | 0 <= j < |vs| :: vs[j] == View(list.items[j])
      modifies this`text, this`wheelStamp, this`log, list.items`clicked
      ensures Pass(text, wheelStamp, acted', skip', log) ==
        Walk(Pass(old(text), old(wheelStamp), acted, skip, old(log)), ev, vs, |vs|, overlayPass, Pointer(mouseX, mouseY, vx, vy))
      ensures forall j | 0 <= j < |vs| ::
        vs[j] == View(list.items[j]) &&
        list.items[j].clicked == ClickedIn(ev, vs[j], overlayPass, Pointer(mouseX, mouseY, vx, vy), old(list.items[j].clicked))
    {
      ghost var items := list.items;
      ghost var p0 := Pass(text, wheelStamp, acted, skip, log);
      ghost var m := Pointer(mouseX, mouseY, vx, vy);
      acted', skip' := acted, skip;
      var I := list.head;
      ghost var k := 0;
      while I != null
        invariant 0 <= k <= |items|
        invariant I == if k < |items| then items[k] else null
        invariant Pass(text, wheelStamp, acted', skip', log) == Walk(p0, ev, vs, k, overlayPass, m)
        invariant forall j | 0 <= j < |items| ::
          items[j].clicked == if j < k then ClickedIn(ev, vs[j], overlayPass, m, old(items[j].clicked)) else old(items[j].clicked)
        decreases |items| - k
      {
        assert View(I) == vs[k];
        acted', skip' := VisitItem(I, vs[k], ev, overlayPass, vx, vy, acted', skip');
        I := I.next;
        k := k + 1;
      }
    }

    /** The global callbacks of sdl_mouse_manager, run when no item acted. */
    method RunGlobal(ev: Event)
      modifies this`log
      ensures log == old(log) + GlobalCalls(mouseCallbacks, ev, mouseX, mouseY, wheelStamp)
    {
      var n := 0;
      while n < |mouseCallbacks|
        invariant 0 <= n <= |mouseCallbacks|
        invariant log == old(log) + GlobalCalls(mouseCallbacks[..n], ev, mouseX, mouseY, wheelStamp)
      {
        assert mouseCallbacks[..n + 1][..n] == mouseCallbacks[..n];
        var m := mouseCallbacks[n];
        match ev {
          case Motion(_, _) =>
            if m.eventType == MouseMotion {
              log := log + [GlobalMouse(m.cb, mouseX, mouseY)];
            }
          case ButtonDown(b) =>
            if m.eventType == MouseButtonDown {
              log := log + [GlobalMouse(m.cb, b, 0)];
            }
          case ButtonUp(b, _) =>
            if m.eventType == MouseButtonUp {
              log := log + [GlobalMouse(m.cb, b, 0)];
            }
          case Wheel(ts, y) =>
            if m.eventType == MouseWheelUp || m.eventType == MouseWheelDown {
              if ts != wheelStamp {
                if y > 0 && m.eventType == MouseWheelUp {
                  log := log + [GlobalMouse(m.cb, y, 0)];
                }
                if y < 0 && m.eventType == MouseWheelDown {
                  log := log + [GlobalMouse(m.cb, y, 0)];
                }
              }
            }
          case _ =>
        }
        n := n + 1;
      }
      assert mouseCallbacks[..|mouseCallbacks|] == mouseCallbacks;
    }

    /**
     * sdl_mouse_manager: the window events move the pointer in or out; outside the window
     * or with no item the event is dropped (false). Otherwise a motion moves the pointer,
     * the overlay pass runs, then the non-overlay pass unless an overlay item was hit; the
     * global callbacks run only when no item acted, and the result says whether one did.
     */
    method MouseManager(ev: Event, list: ItemList, vx: int, vy: int) returns (acted: bool)
      requires list.Valid()
      modifies this`mouseIn, this`mouseX, this`mouseY, this`text, this`wheelStamp, this`log, list.items`clicked
      ensures mouseIn == PointerInAfter(old(mouseIn), ev)
      ensures !mouseIn || list.head == null ==>
        !acted && mouseX == old(mouseX) && mouseY == old(mouseY) && text == old(text) &&
        wheelStamp == old(wheelStamp) && log == old(log) &&
        forall j | 0 <= j < |list.items| :: list.items[j].clicked == old(list.items[j].clicked)
      ensures mouseIn && list.head != null ==>
        mouseX == (if ev.Motion? then ev.x else old(mouseX)) && mouseY == (if ev.Motion? then ev.y else old(mouseY)) &&
        var vs := old(Views(list.items));
        var p := Passes(Pass(old(text), old(wheelStamp), false, false, old(log)), ev, vs, Pointer(mouseX, mouseY, vx, vy));
        text == p.text && wheelStamp == p.stamp && acted == p.acted &&
        log == p.log + (if p.acted then [] else GlobalCalls(mouseCallbacks, ev, mouseX, mouseY, p.stamp)) &&
        forall j | 0 <= j < |list.items| ::
          list.items[j].clicked == ClickedAfter(ev, vs, j, old(list.items[j].clicked), Pointer(mouseX, mouseY, vx, vy))
    {
      ghost var vs := Views(list.items);
      mouseIn := PointerInAfter(mouseIn, ev);
      if !mouseIn || list.head == null {
        return false;
      }
      if ev.Motion? {
        mouseX, mouseY := ev.x, ev.y;
      }
      acted := Dispatch(ev, list, vs, vx, vy);
    }

    /** The two passes of sdl_mouse_manager and its fallback to the global callbacks. */
    method Dispatch(ev: Event, list: ItemList, ghost vs: seq<ItemView>, vx: int, vy: int) returns (acted: bool)
      requires list.Valid() && |vs| == |list.items| && forall j | 0 <= j < |vs| :: vs[j] == View(list.items[j])
      modifies this`text, this`wheelStamp, this`log, list.items`clicked
      ensures
        var p := Passes(Pass(old(text), old(wheelStamp), false, false, old(log)), ev, vs, Pointer(mouseX, mouseY, vx, vy));
        text == p.text && wheelStamp == p.stamp && acted == p.acted &&
        log == p.log + (if p.acted then [] else GlobalCalls(mouseCallbacks, ev, mouseX, mouseY, p.stamp))
      ensures forall j | 0 <= j < |list.items| ::
        list.items[j].clicked == ClickedAfter(ev, vs, j, old(list.items[j].clicked), Pointer(mouseX, mouseY, vx, vy))
    {
      ghost var m := Pointer(mouseX, mouseY, vx, vy);
      ghost var p0 := Pass(text, wheelStamp, false, false, log);
      var skip;
      acted, skip := RunPass(list, vs, ev, true, vx, vy, false, false);
      SkipIgnoresCarried(p0, Pass(NoText, 0, false, false, []), ev, vs, |vs|, m);
      if !skip {
        acted, skip := RunPass(list, vs, ev, false, vx, vy, acted, skip);
        forall j | 0 <= j < |list.items|
          ensures list.items[j].clicked == ClickedAfter(ev, vs, j, old(list.items[j].clicked), m)
        {
          ClickedAfterPasses(ev, vs, j, old(list.items[j].clicked), m, false);
        }
      } else {
        forall j | 0 <= j < |list.items|
          ensures list.items[j].clicked == ClickedAfter(ev, vs, j, old(list.items[j].clicked), m)
        {
          ClickedAfterPasses(ev, vs, j, old(list.items[j].clicked), m, true);
        }
      }
      if acted {
        return true;
      }
      RunGlobal(ev);
      return false;
    }

    /**
     * sdl_mouse_position_manager: with the pointer in the window, every item under it shows
     * its hover animations, and its click animations too while a button is down
     * (`buttonsDown`, what SDL_GetMouseState reports); every other item shows neither.
     */
    method PositionManager(list: ItemList, vx: int, vy: int, buttonsDown: bool)
      requires list.Valid()
      modifies list.items`animOver, list.items`animClick
      ensures !mouseIn ==> forall j | 0 <= j < |list.items| ::
        list.items[j].animOver == old(list.items[j].animOver) && list.items[j].animClick == old(list.items[j].animClick)
      ensures mouseIn ==> forall j | 0 <= j < |list.items| ::
        var under := Under(old(View(list.items[j])), Pointer(mouseX, mouseY, vx, vy));
        list.items[j].animOver == (if under then list.items[j].defaultAnimOver else []) &&
        list.items[j].animClick == (if under && buttonsDown then list.items[j].defaultAnimClick else [])
    {
      if !mouseIn {
        return;
      }
      ghost var items := list.items;
      ghost var m := Pointer(mouseX, mouseY, vx, vy);
      var I := list.head;
      ghost var k := 0;
      while I != null
        invariant 0 <= k <= |items|
        invariant I == if k < |items| then items[k] else null
        invariant forall j | 0 <= j < |items| ::
          if j < k then
            var under := Under(old(View(items[j])), m);
            items[j].animOver == (if under then items[j].defaultAnimOver else []) &&
            items[j].animClick == (if under && buttonsDown then items[j].defaultAnimClick else [])
          else items[j].animOver == old(items[j].animOver) && items[j].animClick == old(items[j].animClick)
        decreases |items| - k
      {
        assert View(I) == old(View(items[k]));
        ShowHover(I, vx, vy, buttonsDown);
        I := I.next;
        k := k + 1;
      }
    }

    /** The body of sdl_mouse_position_manager's loop for one item. */
    method ShowHover(I: Item, vx: int, vy: int, buttonsDown: bool)
      modifies I`animOver, I`animClick
      ensures var under := Under(View(I), Pointer(mouseX, mouseY, vx, vy));
        I.animOver == (if under then I.defaultAnimOver else []) &&
        I.animClick == (if under && buttonsDown then I.defaultAnimClick else [])
    {
      var mx := if I.overlay != 0 then mouseX else mouseX - vx;
      var my := if I.overlay != 0 then mouseY else mouseY - vy;
      I.animOver := [];
      I.animClick := [];
      if I.rect.x <= mx && I.rect.x + I.rect.w > mx && I.rect.y <= my && I.rect.y + I.rect.h > my {
        I.animOver := I.defaultAnimOver;
        if buttonsDown {
          I.animClick := I.defaultAnimClick;
        }
      }
    }

    /**
     * sdl_keyboard_manager: a key release fires the key-up callbacks of its code; a key
     * press fires the key-down callbacks of its code when no text is being typed, and
     * otherwise goes to the text (RETURN fires the text callback) and is reported as
     * handled. Nothing else is handled. The text buffer never leaves its bounds.
     */
    method KeyboardManager(ev: Event, shift: bool) returns (handled: bool)
      requires TextValid(text)
      modifies this`text, this`log, text.buf
      ensures handled == KeyHandled(ev, old(text))
      ensures TextValid(text)
      ensures text.buf == old(text.buf) && text.max == old(text.max) && text.cb == old(text.cb)
      ensures ev.KeyUp? ==> log == old(log) + KeyCalls(keyCallbacks, ev.scancode, true) && text == old(text)
      ensures ev.KeyDown? && old(text).buf == null ==> log == old(log) + KeyCalls(keyCallbacks, ev.scancode, false) && text == old(text)
      ensures ev.KeyDown? && old(text).buf != null ==>
        log == old(log) + (if ev.sym == KeyReturn && text.cb.Some? then [Text(text.cb.value)] else []) &&
        (text.buf[..], text.index) == TypeKey(old(text.buf[..]), old(text).index, text.max, ev.sym, shift)
      ensures !ev.KeyUp? && !ev.KeyDown? ==> log == old(log) && text == old(text)
      ensures !(ev.KeyDown? && old(text).buf != null) && text.buf != null ==> text.buf[..] == old(text.buf[..])
    {
      match ev {
        case KeyUp(code) =>
          FireKeys(code, true);
          return false;
        case KeyDown(code, sym) =>
          if text.buf == null {
            FireKeys(code, false);
            return false;
          }
          TypeInto(sym, shift);
          return true;
        case _ =>
          return false;
      }
    }

    /** The walk down the key table of sdl_keyboard_manager. */
    method FireKeys(code: int, up: bool)
      modifies this`log
      ensures log == old(log) + KeyCalls(keyCallbacks, code, up)
    {
      var n := 0;
      while n < |keyCallbacks|
        invariant 0 <= n <= |keyCallbacks|
        invariant log == old(log) + KeyCalls(keyCallbacks[..n], code, up)
      {
        assert keyCallbacks[..n + 1][..n] == keyCallbacks[..n];
        var k := keyCallbacks[n];
        if k.code == code {
          if up {
            if k.cbUp.Some? {
              log := log + [Called(k.cbUp.value)];
            }
          } else {
            log := log + [Called(k.cb)];
          }
        }
        n := n + 1;
      }
      assert keyCallbacks[..|keyCallbacks|] == keyCallbacks;
    }

    /** The text-entry half of sdl_keyboard_manager for one key press. */
    method TypeInto(sym: int, shift: bool)
      requires text.buf != null && TextValid(text)
      modifies this`text, this`log, text.buf
      ensures text.buf == old(text.buf) && text.max == old(text.max) && text.cb == old(text.cb)
      ensures TextValid(text)
      ensures log == old(log) + (if sym == KeyReturn && text.cb.Some? then [Text(text.cb.value)] else [])
      ensures (text.buf[..], text.index) == TypeKey(old(text.buf[..]), old(text).index, text.max, sym, shift)
    {
      var buf := text.buf;
      if sym == KeyReturn && text.cb.Some? {
        log := log + [Text(text.cb.value)];
      }
      if sym == KeyDelete || sym == KeyBackspace {
        if text.index > 0 {
          text := text.(index := text.index - 1);
        }
        buf[text.index] := 0 as char;
      }
      if KeySpace <= sym < KeyDelete {
        var c := if shift && KeyA <= sym <= KeyZ then (sym - 32) as char else sym as char;
        buf[text.index] := c;
        text := text.(index := text.index + 1);
        if text.index >= text.max {
          text := text.(index := text.index - 1);
        }
        buf[text.index] := 0 as char;
      }
    }
  }

  /**
   * An item's flag after both passes is what the overlay pass leaves, followed by the
   * non-overlay pass unless an overlay item was hit; each item is reached by one pass at most.
   */
  lemma ClickedAfterPasses(ev: Event, vs: seq<ItemView>, j: nat, clicked: int, m: Pointer, skip: bool)
    requires j < |vs| && skip == Walk(Pass(NoText, 0, false, false, []), ev, vs, |vs|, true, m).skip
    ensures ClickedAfter(ev, vs, j, clicked, m) ==
      if skip then ClickedIn(ev, vs[j], true, m, clicked)
      else ClickedIn(ev, vs[j], false, m, ClickedIn(ev, vs[j], true, m, clicked))
  {
  }

  /** Whether an overlay item was hit depends only on the items and the pointer, not on the state the pass carries. */
  lemma {:induction false} SkipIgnoresCarried(p: Pass, q: Pass, ev: Event, vs: seq<ItemView>, n: nat, m: Pointer)
    requires n <= |vs| && p.skip == q.skip
    ensures Walk(p, ev, vs, n, true, m).skip == Walk(q, ev, vs, n, true, m).skip
  {
    if n > 0 {
      SkipIgnoresCarried(p, q, ev, vs, n - 1, m);
    }
  }

  /** An overlay item among the first n is under the pointer. */
  predicate OverlayHit(vs: seq<ItemView>, n: nat, m: Pointer)
    requires n <= |vs|
  {
    exists j | 0 <= j < n :: Reached(vs[j], true, m)
  }

  /** The overlay pass marks the non-overlay pass skipped exactly when an overlay item is under the pointer. */
  lemma {:induction false} WalkSkipIff(p: Pass, ev: Event, vs: seq<ItemView>, n: nat, m: Pointer)
    requires n <= |vs|
    ensures Walk(p, ev, vs, n, true, m).skip <==> p.skip || OverlayHit(vs, n, m)
  {
    if n > 0 {
      WalkSkipIff(p, ev, vs, n - 1, m);
      if OverlayHit(vs, n, m) && !OverlayHit(vs, n - 1, m) {
        var j :| 0 <= j < n && Reached(vs[j], true, m);
        assert j == n - 1;
      }
    }
  }

  /** The non-overlay pass leaves the carried state alone, except for the callbacks and flags of non-overlay items. */
  lemma {:induction false} NonOverlayPassKeepsSkip(p: Pass, ev: Event, vs: seq<ItemView>, n: nat, m: Pointer)
    requires n <= |vs|
    ensures Walk(p, ev, vs, n, false, m).skip == p.skip
  {
    if n > 0 {
      NonOverlayPassKeepsSkip(p, ev, vs, n - 1, m);
    }
  }

  /**
   * Overlay items shadow the others: when one is under the pointer, the event is seen by
   * overlay items only, and no other item's `clicked` flag changes; otherwise every item
   * under the pointer sees it.
   */
  lemma Shadowing(p: Pass, ev: Event, vs: seq<ItemView>, m: Pointer, j: nat, clicked: int)
    requires !p.skip && j < |vs|
    ensures OverlayHit(vs, |vs|, m) ==> Passes(p, ev, vs, m) == Walk(p, ev, vs, |vs|, true, m)
    ensures OverlayHit(vs, |vs|, m) && vs[j].overlay == 0 ==> ClickedAfter(ev, vs, j, clicked, m) == clicked
    ensures !OverlayHit(vs, |vs|, m) ==>
      ClickedAfter(ev, vs, j, clicked, m) == if Under(vs[j], m) then ClickedOn(ev, vs[j], clicked) else clicked
  {
    WalkSkipIff(p, ev, vs, |vs|, m);
    WalkSkipIff(Pass(NoText, 0, false, false, []), ev, vs, |vs|, m);
  }

  /**
   * On a wheel event whose timestamp is already stored, a pass fires nothing, acts on
   * nothing and keeps the stamp.
   */
  lemma {:induction false} WalkStaleWheel(p: Pass, ts: u32, y: int, vs: seq<ItemView>, n: nat, overlayPass: bool, m: Pointer)
    requires n <= |vs| && p.stamp == ts
    ensures var q := Walk(p, Wheel(ts, y), vs, n, overlayPass, m);
      q.log == p.log && q.stamp == ts && q.acted == p.acted && q.text == p.text
  {
    if n > 0 {
      WalkStaleWheel(p, ts, y, vs, n - 1, overlayPass, m);
    }
  }

  /**
   * A wheel event with the timestamp already served fires no item callback and no global
   * one, and sdl_mouse_manager reports nothing done.
   */
  lemma StaleWheelFiresNothing(p: Pass, ts: u32, y: int, vs: seq<ItemView>, m: Pointer, ms: seq<MouseCb>)
    requires p.stamp == ts && !p.acted
    ensures var q := Passes(p, Wheel(ts, y), vs, m);
      q.log == p.log && !q.acted && q.stamp == ts && GlobalCalls(ms, Wheel(ts, y), m.x, m.y, q.stamp) == []
  {
    WalkStaleWheel(p, ts, y, vs, |vs|, true, m);
    var first := Walk(p, Wheel(ts, y), vs, |vs|, true, m);
    WalkStaleWheel(first, ts, y, vs, |vs|, false, m);
    StaleGlobalWheel(ms, ts, y, m.x, m.y);
  }

  lemma {:induction false} StaleGlobalWheel(ms: seq<MouseCb>, ts: u32, y: int, mouseX: int, mouseY: int)
    ensures GlobalCalls(ms, Wheel(ts, y), mouseX, mouseY, ts) == []
    decreases |ms|
  {
    if ms != [] {
      StaleGlobalWheel(ms[..|ms| - 1], ts, y, mouseX, mouseY);
    }
  }

  /** A pass on a wheel event either fires nothing or fires one callback and stores the timestamp. */
  lemma {:induction false} WalkWheelOnce(p: Pass, ts: u32, y: int, vs: seq<ItemView>, n: nat, overlayPass: bool, m: Pointer)
    requires n <= |vs|
    ensures var q := Walk(p, Wheel(ts, y), vs, n, overlayPass, m);
      (q.log == p.log && q.stamp == p.stamp) ||
      (p.stamp != ts && q.stamp == ts && |q.log| == |p.log| + 1 && q.log[..|p.log|] == p.log)
  {
    if n > 0 {
      WalkWheelOnce(p, ts, y, vs, n - 1, overlayPass, m);
      var q := Walk(p, Wheel(ts, y), vs, n - 1, overlayPass, m);
      if q.stamp == ts {
        WalkStaleWheel(q, ts, y, vs[n - 1..], 1, overlayPass, m);
        assert Walk(q, Wheel(ts, y), vs[n - 1..], 1, overlayPass, m) == Visit(q, Wheel(ts, y), vs[n - 1], overlayPass, m);
      }
    }
  }

  /** However many items are under the pointer, one wheel event fires at most one item wheel callback. */
  lemma WheelFiresAtMostOnce(p: Pass, ts: u32, y: int, vs: seq<ItemView>, m: Pointer)
    ensures var q := Passes(p, Wheel(ts, y), vs, m);
      |p.log| <= |q.log| <= |p.log| + 1 && q.log[..|p.log|] == p.log
  {
    WalkWheelOnce(p, ts, y, vs, |vs|, true, m);
    var first := Walk(p, Wheel(ts, y), vs, |vs|, true, m);
    WalkWheelOnce(first, ts, y, vs, |vs|, false, m);
    if first.stamp == ts {
      WalkStaleWheel(first, ts, y, vs, |vs|, false, m);
    }
  }
}
