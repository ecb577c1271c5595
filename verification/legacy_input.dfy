/**
 * The input side of sdl.c: the older mouse manager, which sets each item's current frame
 * number (normal, hover or click) and runs its callbacks, the keyboard editor that types
 * into an item's string, and the key callback table. Callbacks are not run: each call is
 * an entry appended to a log.
 */
module LegacyInput {
  import opened Wrappers
  import opened Items
  import Input
  import opened LegacyItems

  /** SDL_SCANCODE_A and SDL_SCANCODE_Z: the scancodes of the A and Z keys. */
  const ScancodeA := 4
  const ScancodeZ := 29

  /** The mouse events the manager tells apart, each with the pointer position it reads. */
  datatype MouseKind = Moved | Pressed(button: int) | Released(button: int, clicks: int) | Wheeled(y: int) | OtherMouse
  datatype MouseEvent = MouseEvent(kind: MouseKind, x: int, y: int)

  /** The item whose string is being typed into, and the RETURN callback. */
  datatype Target = Target(item: LegacyItem?, cb: Option<Callback>)

  const NoTarget := Target(null, None)

  /** What the manager reads of an item. */
  datatype LegacyView = LegacyView(
    self: LegacyItem, rect: Rect, overlay: int, frameNormal: int, frameOver: int, frameClick: int,
    over: Option<Callback>, clickLeft: Option<Callback>, clickRight: Option<Callback>,
    doubleClickLeft: Option<Callback>, doubleClickRight: Option<Callback>,
    wheelUp: Option<Callback>, wheelDown: Option<Callback>,
    editable: int, hasString: bool, editCb: Option<Callback>)

  function ViewOf(i: LegacyItem): LegacyView
    reads i`rect, i`overlay, i`frameNormal, i`frameOver, i`frameClick, i`over, i`clickLeft, i`clickRight
    reads i`doubleClickLeft, i`doubleClickRight, i`wheelUp, i`wheelDown, i`editable, i`str, i`editCb
  {
    LegacyView(i, i.rect, i.overlay, i.frameNormal, i.frameOver, i.frameClick, i.over, i.clickLeft, i.clickRight,
               i.doubleClickLeft, i.doubleClickRight, i.wheelUp, i.wheelDown, i.editable, i.str.Some?, i.editCb)
  }

  function ViewsOf(items: seq<LegacyItem>): (vs: seq<LegacyView>)
    reads items`rect, items`overlay, items`frameNormal, items`frameOver, items`frameClick, items`over
    reads items`clickLeft, items`clickRight, items`doubleClickLeft, items`doubleClickRight, items`wheelUp
    reads items`wheelDown, items`editable, items`str, items`editCb
    ensures |vs| == |items| && forall j | 0 <= j < |items| :: vs[j] == ViewOf(items[j])
  {
    if items == [] then [] else ViewsOf(items[..|items| - 1]) + [ViewOf(items[|items| - 1])]
  }

  /** The point is strictly inside the rectangle: none of its four edges counts. */
  predicate StrictHit(r: Rect, px: int, py: int)
  {
    r.x < px && px < r.x + r.w && r.y < py && py < r.y + r.h
  }

  /** The strict test accepts fewer points than the half-open one of sdl.cpp, and never the item's corner. */
  lemma StrictWithinHalfOpen(r: Rect, px: int, py: int)
    ensures StrictHit(r, px, py) ==> Input.Hit(r, px, py)
    ensures !StrictHit(r, r.x, r.y)
    ensures r.w > 0 && r.h > 0 ==> Input.Hit(r, r.x, r.y)
  {
  }

  /** The pointer is on the item: window coordinates for overlay items, the scene (shifted by the camera offset) for the others. */
  predicate OnIt(v: LegacyView, ev: MouseEvent, vx: int, vy: int)
  {
    if v.overlay != 0 then StrictHit(v.rect, ev.x, ev.y) else StrictHit(v.rect, ev.x - vx, ev.y - vy)
  }

  /** The item belongs to this pass: overlay items to the first, the others to the second. */
  predicate InPass(v: LegacyView, overlayPass: bool)
  {
    (v.overlay != 0) == overlayPass
  }

  /** The frame number an item shows and its `clicked` flag. */
  datatype Look = Look(frame: int, clicked: int)

  /** The `clicked` flag after the item's pass: set by a press of a side it handles, cleared by a release. */
  function ClickedBy(ev: MouseEvent, v: LegacyView, hit: bool, clicked: int): int
  {
    if !hit then clicked
    else match ev.kind
      case Pressed(b) =>
        if (v.clickLeft.Some? && b == Input.ButtonLeft) || (v.clickRight.Some? && b == Input.ButtonRight) then 1 else clicked
      case Released(_, _) => 0
      case _ => clicked
  }

  /**
   * The item's look after its pass: a clicked item always ends showing its click frame;
   * otherwise the hover frame under a moving pointer, the click frame under a press, and
   * the normal frame in every other case.
   */
  function LookAfter(ev: MouseEvent, v: LegacyView, vx: int, vy: int, clicked: int): (l: Look)
    ensures l.clicked != 0 ==> l.frame == v.frameClick
    ensures !OnIt(v, ev, vx, vy) ==> l.clicked == clicked
    ensures l.clicked == 0 && !OnIt(v, ev, vx, vy) ==> l.frame == v.frameNormal
    ensures OnIt(v, ev, vx, vy) && ev.kind.Released? ==> l == Look(v.frameNormal, 0)
  {
    var hit := OnIt(v, ev, vx, vy);
    var c := ClickedBy(ev, v, hit, clicked);
    var f := if hit && ev.kind.Moved? then v.frameOver else if hit && ev.kind.Pressed? then v.frameClick else v.frameNormal;
    Look(if c != 0 then v.frameClick else f, c)
  }

  /** The state a pass carries from item to item. */
  datatype Pass = Pass(target: Target, log: seq<Input.Fired>, skip: bool)

  /** The text target after a press on an item: none, then the item's string if it is editable and has one. */
  function PressTarget(v: LegacyView): Target
  {
    if v.editable != 0 && v.hasString then Target(v.self, v.editCb) else NoTarget
  }

  /** The callbacks a release fires: the single-click one of its side for one click, the double-click one for two. */
  function ReleaseCalls(v: LegacyView, button: int, clicks: int): (r: seq<Input.Fired>)
    ensures |r| <= 1
    ensures clicks != 1 && clicks != 2 ==> r == []
    ensures button != Input.ButtonLeft && button != Input.ButtonRight ==> r == []
  {
    Input.Opt(v.clickLeft, button == Input.ButtonLeft && clicks == 1) +
    Input.Opt(v.clickRight, button == Input.ButtonRight && clicks == 1) +
    Input.Opt(v.doubleClickLeft, button == Input.ButtonLeft && clicks == 2) +
    Input.Opt(v.doubleClickRight, button == Input.ButtonRight && clicks == 2)
  }

  /** What the event does on an item the pointer is on. */
  function OnItem(p: Pass, ev: MouseEvent, v: LegacyView): Pass
  {
    match ev.kind
    case Moved => p.(log := p.log + Input.Opt(v.over, true))
    case Pressed(_) => p.(target := PressTarget(v))
    case Released(b, c) => p.(log := p.log + ReleaseCalls(v, b, c))
    case Wheeled(y) => p.(log := p.log + Input.Opt(v.wheelUp, y > 0) + Input.Opt(v.wheelDown, y < 0))
    case OtherMouse => p
  }

  /** One item of a pass: nothing unless it belongs to the pass and the pointer is on it; an overlay hit sets the skip flag. */
  function Visit(p: Pass, ev: MouseEvent, v: LegacyView, overlayPass: bool, vx: int, vy: int): Pass
  {
    if InPass(v, overlayPass) && OnIt(v, ev, vx, vy) then OnItem(p.(skip := p.skip || overlayPass), ev, v) else p
  }

  /** A pass over the first n items, in list order. */
  function Walk(p: Pass, ev: MouseEvent, vs: seq<LegacyView>, n: nat, overlayPass: bool, vx: int, vy: int): Pass
    requires n <= |vs|
  {
    if n == 0 then p else Visit(Walk(p, ev, vs, n - 1, overlayPass, vx, vy), ev, vs[n - 1], overlayPass, vx, vy)
  }

  /** Both passes: overlay items first, then the others unless an overlay item was hit. */
  function Passes(p: Pass, ev: MouseEvent, vs: seq<LegacyView>, vx: int, vy: int): Pass
  {
    var first := Walk(p, ev, vs, |vs|, true, vx, vy);
    if first.skip then first else Walk(first, ev, vs, |vs|, false, vx, vy)
  }

  /** The pointer is on one of the first n items that are overlay items. */
  predicate OverlayHit(ev: MouseEvent, vs: seq<LegacyView>, n: nat, vx: int, vy: int)
    requires n <= |vs|
  {
    exists j | 0 <= j < n :: vs[j].overlay != 0 && OnIt(vs[j], ev, vx, vy)
  }

  /** An item's look after both passes: changed by its own pass, and not at all when the pass is skipped. */
  function ItemAfter(ev: MouseEvent, vs: seq<LegacyView>, j: nat, l: Look, vx: int, vy: int): Look
    requires j < |vs|
  {
    if vs[j].overlay != 0 || !OverlayHit(ev, vs, |vs|, vx, vy) then LookAfter(ev, vs[j], vx, vy, l.clicked) else l
  }

  /** The looks of a list of items, in list order. */
  function LooksOf(items: seq<LegacyItem>): (ls: seq<Look>)
    reads items`currentFrame, items`clicked
    ensures |ls| == |items| && forall j | 0 <= j < |items| :: ls[j] == Look(items[j].currentFrame, items[j].clicked)
  {
    if items == [] then [] else LooksOf(items[..|items| - 1]) + [Look(items[|items| - 1].currentFrame, items[|items| - 1].clicked)]
  }

  /** The looks after one pass: items of the pass take LookAfter, the others keep theirs. */
  function PassLooks(ev: MouseEvent, vs: seq<LegacyView>, ls: seq<Look>, overlayPass: bool, vx: int, vy: int): seq<Look>
    requires |ls| == |vs|
  {
    seq(|vs|, j requires 0 <= j < |vs| =>
      if InPass(vs[j], overlayPass) then LookAfter(ev, vs[j], vx, vy, ls[j].clicked) else ls[j])
  }


  /** The overlay pass sets the skip flag exactly when the pointer is on an overlay item. */
  lemma {:induction false} OverlayPassSkip(p: Pass, ev: MouseEvent, vs: seq<LegacyView>, n: nat, vx: int, vy: int)
    requires n <= |vs|
    ensures Walk(p, ev, vs, n, true, vx, vy).skip <==> p.skip || OverlayHit(ev, vs, n, vx, vy)
  {
    if n > 0 {
      OverlayPassSkip(p, ev, vs, n - 1, vx, vy);
      if OverlayHit(ev, vs, n, vx, vy) && !OverlayHit(ev, vs, n - 1, vx, vy) {
        var j :| 0 <= j < n && vs[j].overlay != 0 && OnIt(vs[j], ev, vx, vy);
        assert j == n - 1;
      }
    }
  }

  /** The non-overlay pass never changes the skip flag. */
  lemma {:induction false} SecondPassKeepsSkip(p: Pass, ev: MouseEvent, vs: seq<LegacyView>, n: nat, vx: int, vy: int)
    requires n <= |vs|
    ensures Walk(p, ev, vs, n, false, vx, vy).skip == p.skip
  {
    if n > 0 {
      SecondPassKeepsSkip(p, ev, vs, n - 1, vx, vy);
    }
  }

  /**
   * Overlay items shadow the others: with the pointer on an overlay item, the outcome is
   * the overlay pass alone and no non-overlay item changes; otherwise both passes run.
   */
  lemma Shadowing(p: Pass, ev: MouseEvent, vs: seq<LegacyView>, vx: int, vy: int, j: nat, l: Look)
    requires !p.skip && j < |vs|
    ensures OverlayHit(ev, vs, |vs|, vx, vy) ==> Passes(p, ev, vs, vx, vy) == Walk(p, ev, vs, |vs|, true, vx, vy)
    ensures OverlayHit(ev, vs, |vs|, vx, vy) && vs[j].overlay == 0 ==> ItemAfter(ev, vs, j, l, vx, vy) == l
    ensures !OverlayHit(ev, vs, |vs|, vx, vy) ==>
      Passes(p, ev, vs, vx, vy) == Walk(Walk(p, ev, vs, |vs|, true, vx, vy), ev, vs, |vs|, false, vx, vy)
  {
    OverlayPassSkip(p, ev, vs, |vs|, vx, vy);
  }

  /** A key registered with sdl_add_keycb: its scancode and callback. */
  datatype KeyEntry = KeyEntry(code: int, cb: Callback)

  /** The callbacks of the table whose code is the pressed key's scancode, in registration order. */
  function KeyCallsOf(ks: seq<KeyEntry>, code: int): (r: seq<Input.Fired>)
    ensures |r| <= |ks|
    ensures forall f | f in r :: exists k | k in ks :: k.code == code && f == Input.Called(k.cb)
    decreases |ks|
  {
    if ks == [] then []
    else KeyCallsOf(ks[..|ks| - 1], code) + (if ks[|ks| - 1].code == code then [Input.Called(ks[|ks| - 1].cb)] else [])
  }

  /** Every entry with the pressed key's code fires, so registering one more adds exactly its call at the end. */
  lemma KeyCallsAppend(ks: seq<KeyEntry>, k: KeyEntry, code: int)
    ensures KeyCallsOf(ks + [k], code) == KeyCallsOf(ks, code) + (if k.code == code then [Input.Called(k.cb)] else [])
  {
    assert (ks + [k])[..|ks|] == ks;
  }

  /**
   * The case test of the uppercase conversion as sdl.c writes it: the key code is
   * compared with the scancodes of A and Z, so the result is the code less 32 only for
   * codes 4 to 29.
   */
  function ShiftAsWritten(sym: int, shift: bool): int
  {
    if shift && ScancodeA <= sym <= ScancodeZ then sym - 32 else sym
  }

  /**
   * Every key that reaches the conversion is printable (32 to 126), so it never converts
   * anything: with shift held, 'a' is still typed as 'a'; the corrected conversion gives 'A'.
   */
  lemma ShiftNeverApplies(sym: int)
    requires Input.KeySpace <= sym < Input.KeyDelete
    ensures ShiftAsWritten(sym, true) == sym
    ensures ShiftAsWritten(Input.KeyA, true) == 'a' as int && Input.Typed(Input.KeyA, true) == 'A'
  {
  }

  /**
   * A key press typed into the string. The edit index is always the string's length:
   * text_init starts it at strlen and every edit leaves it on the terminator. DELETE and
   * BACKSPACE remove the last character (an empty string stays empty); a printable key
   * appends its character, upper case for a to z with shift held; other keys change nothing.
   */
  function TypeInto(s: string, sym: int, shift: bool): (r: string)
    ensures (sym == Input.KeyDelete || sym == Input.KeyBackspace) ==> r == (if s == [] then [] else s[..|s| - 1])
    ensures Input.KeySpace <= sym < Input.KeyDelete ==> r == s + [Input.Typed(sym, shift)]
    ensures !(Input.KeySpace <= sym <= Input.KeyDelete) && sym != Input.KeyBackspace ==> r == s
  {
    if sym == Input.KeyDelete || sym == Input.KeyBackspace then (if s == [] then [] else s[..|s| - 1])
    else if Input.KeySpace <= sym < Input.KeyDelete then s + [Input.Typed(sym, shift)]
    else s
  }

  /** Keys typed one after the other. */
  function TypeAll(s: string, syms: seq<int>, shift: bool): string
    decreases |syms|
  {
    if syms == [] then s else TypeAll(TypeInto(s, syms[0], shift), syms[1..], shift)
  }

  /** Printable keys append their characters in order: nothing bounds the string. */
  lemma {:induction false} TypeAllAppends(s: string, syms: seq<int>, shift: bool)
    requires Input.Printable(syms)
    ensures var r := TypeAll(s, syms, shift);
      |r| == |s| + |syms| && r[..|s|] == s && forall k | 0 <= k < |syms| :: r[|s| + k] == Input.Typed(syms[k], shift)
    decreases |syms|
  {
    if syms != [] {
      var s1 := TypeInto(s, syms[0], shift);
      assert Input.Printable(syms[1..]) by {
        forall k | 0 <= k < |syms[1..]| ensures Input.KeySpace <= syms[1..][k] < Input.KeyDelete {
          assert syms[1..][k] == syms[k + 1];
        }
      }
      TypeAllAppends(s1, syms[1..], shift);
      var r := TypeAll(s, syms, shift);
      assert r[..|s|] == r[..|s1|][..|s|];
      forall k | 0 <= k < |syms| ensures r[|s| + k] == Input.Typed(syms[k], shift) {
        if k == 0 {
          assert r[|s|] == r[..|s1|][|s|];
        } else {
          assert syms[1..][k - 1] == syms[k];
        }
      }
    }
  }

  /** Backspace undoes a printable key, and pressed on an empty string leaves it empty. */
  lemma BackspaceUndoes(s: string, sym: int, shift: bool)
    requires Input.KeySpace <= sym < Input.KeyDelete
    ensures TypeInto(TypeInto(s, sym, shift), Input.KeyBackspace, shift) == s
    ensures TypeInto([], Input.KeyBackspace, shift) == []
  {
    assert (s + [Input.Typed(sym, shift)])[..|s|] == s;
  }

  /**
   * The file-scope state of sdl.c that input works on: the text target and the key
   * callback table, and the log of callbacks run.
   */
  class LegacyInput {
    var text: Target
    var keyCallbacks: seq<KeyEntry>
    var log: seq<Input.Fired>

    constructor()
      ensures text == NoTarget && keyCallbacks == [] && log == []
    {
      text := NoTarget;
      keyCallbacks := [];
      log := [];
    }

    /** The text target is an item with a string. */
    predicate TargetValid()
      reads this`text, text.item
    {
      text.item != null ==> text.item.str.Some?
    }

    /** sdl_keyboard_text_init on an item's string: nothing when it has none, otherwise typing goes there. */
    method TextInit(item: LegacyItem, cb: Option<Callback>)
      modifies this`text
      ensures text == if item.str.None? then old(text) else Target(item, cb)
    {
      if item.str.None? {
        return;
      }
      text := Target(item, cb);
    }

    /** sdl_keyboard_text_reset: no text target. */
    method TextReset()
      modifies this`text
      ensures text == NoTarget
    {
      text := NoTarget;
    }

    /** sdl_keyboard_text_get_buf: the string being typed into, if any. */
    method TextGetBuf() returns (buf: Option<string>)
      ensures buf == if text.item == null then None else text.item.str
    {
      if text.item == null {
        return None;
      }
      return text.item.str;
    }

    /** sdl_add_keycb: the key goes at the end of the table. */
    method AddKeyCb(code: int, cb: Callback)
      modifies this`keyCallbacks
      ensures keyCallbacks == old(keyCallbacks) + [KeyEntry(code, cb)]
    {
      keyCallbacks := keyCallbacks + [KeyEntry(code, cb)];
    }

    /**
     * sdl_keyboard_manager: only key presses count. With no text target the callbacks
     * registered for the scancode run; otherwise RETURN runs the text callback and the key
     * is typed into the target's string.
     */
    method KeyboardManager(ev: Input.Event, shift: bool)
      requires TargetValid()
      modifies this`log, (if text.item == null then {} else {text.item})`str
      ensures text == old(text) && TargetValid()
      ensures ev.KeyDown? && text.item == null ==> log == old(log) + KeyCallsOf(keyCallbacks, ev.scancode)
      ensures ev.KeyDown? && text.item != null ==>
        log == old(log) + (if ev.sym == Input.KeyReturn then Input.Opt(text.cb, true) else []) &&
        text.item.str == Some(TypeInto(old(text.item.str).value, ev.sym, shift))
      ensures !ev.KeyDown? ==> log == old(log)
      ensures !(ev.KeyDown? && text.item != null) && text.item != null ==> text.item.str == old(text.item.str)
    {
      if !ev.KeyDown? {
        return;
      }
      if text.item == null {
        FireKeys(ev.scancode);
        return;
      }
      if ev.sym == Input.KeyReturn && text.cb.Some? {
        log := log + [Input.Called(text.cb.value)];
      }
      var s := text.item.str.value;
      if ev.sym == Input.KeyDelete || ev.sym == Input.KeyBackspace {
        if |s| > 0 {
          s := s[..|s| - 1];
        }
      }
      if Input.KeySpace <= ev.sym < Input.KeyDelete {
        s := s + [Input.Typed(ev.sym, shift)];
      }
      text.item.str := Some(s);
    }

    /** The walk down the key table. */
    method FireKeys(code: int)
      modifies this`log
      ensures log == old(log) + KeyCallsOf(keyCallbacks, code)
    {
      var n := 0;
      while n < |keyCallbacks|
        invariant 0 <= n <= |keyCallbacks|
        invariant log == old(log) + KeyCallsOf(keyCallbacks[..n], code)
      {
        assert keyCallbacks[..n + 1][..n] == keyCallbacks[..n];
        if keyCallbacks[n].code == code {
          log := log + [Input.Called(keyCallbacks[n].cb)];
        }
        n := n + 1;
      }
      assert keyCallbacks[..|keyCallbacks|] == keyCallbacks;
    }

    /**
     * Item k of a pass: its frame is reset to normal, and when it belongs to the pass and
     * the pointer is strictly inside it the event acts on it; a clicked item ends showing
     * its click frame. The pass state moves one step along Walk and the item takes the
     * look PassLooks gives it.
     */
    method VisitItem(I: LegacyItem, ghost vs: seq<LegacyView>, ghost ls: seq<Look>, ghost k: nat, ghost p0: Pass,
                     ev: MouseEvent, overlayPass: bool, vx: int, vy: int, skip: bool)
      returns (skip': bool)
      requires k < |vs| == |ls| && vs[k] == ViewOf(I) && ls[k] == Look(I.currentFrame, I.clicked)
      requires Pass(text, log, skip) == Walk(p0, ev, vs, k, overlayPass, vx, vy)
      modifies this`text, this`log, I`currentFrame, I`clicked
      ensures Pass(text, log, skip') == Walk(p0, ev, vs, k + 1, overlayPass, vx, vy)
      ensures Look(I.currentFrame, I.clicked) == PassLooks(ev, vs, ls, overlayPass, vx, vy)[k]
    {
      skip' := skip;
      if (I.overlay != 0) != overlayPass {
        return;
      }
      var px := if I.overlay != 0 then ev.x else ev.x - vx;
      var py := if I.overlay != 0 then ev.y else ev.y - vy;
      I.currentFrame := I.frameNormal;
      if I.rect.x < px && I.rect.x + I.rect.w > px && I.rect.y < py && I.rect.y + I.rect.h > py {
        if overlayPass {
          skip' := true;
        }
        OnItemAt(I, vs[k], ev);
      }
      if I.clicked != 0 {
        I.currentFrame := I.frameClick;
      }
    }

    /** The switch on the event type for an item the pointer is on. */
    method OnItemAt(I: LegacyItem, ghost v: LegacyView, ev: MouseEvent)
      requires v == ViewOf(I)
      modifies this`text, this`log, I`currentFrame, I`clicked
      ensures Pass(text, log, false) == OnItem(Pass(old(text), old(log), false), ev, v)
      ensures I.clicked == ClickedBy(ev, v, true, old(I.clicked))
      ensures ev.kind.Moved? ==> I.currentFrame == I.frameOver
      ensures ev.kind.Pressed? ==> I.currentFrame == I.frameClick
      ensures ev.kind.Released? ==> I.currentFrame == I.frameNormal
      ensures ev.kind.Wheeled? || ev.kind.OtherMouse? ==> I.currentFrame == old(I.currentFrame)
    {
      match ev.kind {
        case Moved =>
          I.currentFrame := I.frameOver;
          if I.over.Some? {
            log := log + [Input.Called(I.over.value)];
          }
        case Pressed(b) =>
          TextReset();
          if I.editable != 0 {
            TextInit(I, I.editCb);
          }
          I.currentFrame := I.frameClick;
          if I.clickLeft.Some? && b == Input.ButtonLeft {
            I.clicked := 1;
          }
          if I.clickRight.Some? && b == Input.ButtonRight {
            I.clicked := 1;
          }
        case Released(b, c) =>
          I.clicked := 0;
          I.currentFrame := I.frameNormal;
          ReleaseLog(I, b, c);
        case Wheeled(y) =>
          if y > 0 && I.wheelUp.Some? {
            log := log + [Input.Called(I.wheelUp.value)];
          }
          if y < 0 && I.wheelDown.Some? {
            log := log + [Input.Called(I.wheelDown.value)];
          }
        case OtherMouse =>
      }
    }

    /** The click callbacks of a release. */
    method ReleaseLog(I: LegacyItem, b: int, c: int)
      modifies this`log
      ensures log == old(log) + ReleaseCalls(ViewOf(I), b, c)
    {
      if I.clickLeft.Some? && b == Input.ButtonLeft && c == 1 {
        log := log + [Input.Called(I.clickLeft.value)];
      }
      if I.clickRight.Some? && b == Input.ButtonRight && c == 1 {
        log := log + [Input.Called(I.clickRight.value)];
      }
      if I.doubleClickLeft.Some? && b == Input.ButtonLeft && c == 2 {
        log := log + [Input.Called(I.doubleClickLeft.value)];
      }
      if I.doubleClickRight.Some? && b == Input.ButtonRight && c == 2 {
        log := log + [Input.Called(I.doubleClickRight.value)];
      }
    }

    /**
     * One pass of sdl_mouse_manager down the item list, whose items are as `vs` records and
     * look as `ls` records.
     */
    method RunPass(list: LegacyItemList, ghost vs: seq<LegacyView>, ghost ls: seq<Look>, ev: MouseEvent,
                   overlayPass: bool, vx: int, vy: int, skip: bool)
      returns (skip': bool)
      requires list.Valid() && |vs| == |list.items| == |ls|
      requires forall j | 0 <= j < |vs| :: vs[j] == ViewOf(list.items[j]) && ls[j] == Look(list.items[j].currentFrame, list.items[j].clicked)
      modifies this`text, this`log, list.items`currentFrame, list.items`clicked
      ensures Pass(text, log, skip') == Walk(Pass(old(text), old(log), skip), ev, vs, |vs|, overlayPass, vx, vy)
      ensures var want := PassLooks(ev, vs, ls, overlayPass, vx, vy);
        forall j | 0 <= j < |vs| :: vs[j] == ViewOf(list.items[j]) && want[j] == Look(list.items[j].currentFrame, list.items[j].clicked)
    {
      ghost var items := list.items;
      ghost var want := PassLooks(ev, vs, ls, overlayPass, vx, vy);
      ghost var p0 := Pass(text, log, skip);
      skip' := skip;
      var I := list.head;
      ghost var k := 0;
      while I != null
        invariant 0 <= k <= |items|
        invariant I == if k < |items| then items[k] else null
        invariant Pass(text, log, skip') == Walk(p0, ev, vs, k, overlayPass, vx, vy)
        invariant forall j | 0 <= j < |items| :: Look(items[j].currentFrame, items[j].clicked) == if j < k then want[j] else ls[j]
        decreases |items| - k
      {
        assert ViewOf(items[k]) == vs[k];
        skip' := VisitItem(I, vs, ls, k, p0, ev, overlayPass, vx, vy, skip');
        I := I.next;
        k := k + 1;
      }
    }

    /**
     * sdl_mouse_manager of sdl.c: nothing for an empty list; otherwise the overlay pass,
     * then the non-overlay pass unless the pointer was on an overlay item. Each item ends
     * with the look ItemAfter gives it.
     */
    method MouseManager(ev: MouseEvent, list: LegacyItemList, vx: int, vy: int)
      requires list.Valid()
      modifies this`text, this`log, list.items`currentFrame, list.items`clicked
      ensures list.head == null ==> text == old(text) && log == old(log)
      ensures list.head != null ==>
        var p := Passes(Pass(old(text), old(log), false), ev, old(ViewsOf(list.items)), vx, vy);
        text == p.target && log == p.log
      ensures forall j | 0 <= j < |list.items| ::
        Look(list.items[j].currentFrame, list.items[j].clicked) ==
          ItemAfter(ev, old(ViewsOf(list.items)), j, old(Look(list.items[j].currentFrame, list.items[j].clicked)), vx, vy)
    {
      if list.head == null {
        return;
      }
      ghost var vs := ViewsOf(list.items);
      ghost var ls := LooksOf(list.items);
      TwoPasses(ev, list, vs, ls, vx, vy);
    }

    /**
     * The overlay pass and, unless the pointer was on an overlay item, the second pass,
     * over items that are as `vs` records and look as `ls` records.
     */
    method TwoPasses(ev: MouseEvent, list: LegacyItemList, ghost vs: seq<LegacyView>, ghost ls: seq<Look>, vx: int, vy: int)
      requires list.Valid() && |vs| == |list.items| == |ls|
      requires forall j | 0 <= j < |vs| :: vs[j] == ViewOf(list.items[j]) && ls[j] == Look(list.items[j].currentFrame, list.items[j].clicked)
      modifies this`text, this`log, list.items`currentFrame, list.items`clicked
      ensures var p := Passes(Pass(old(text), old(log), false), ev, vs, vx, vy);
        text == p.target && log == p.log
      ensures forall j | 0 <= j < |vs| ::
        Look(list.items[j].currentFrame, list.items[j].clicked) == ItemAfter(ev, vs, j, ls[j], vx, vy)
    {
      ghost var p0 := Pass(text, log, false);
      var skip := RunPass(list, vs, ls, ev, true, vx, vy, false);
      OverlayPassSkip(p0, ev, vs, |vs|, vx, vy);
      ghost var ls1 := PassLooks(ev, vs, ls, true, vx, vy);
      ghost var ls2 := ls1;
      if !skip {
        skip := RunPass(list, vs, ls1, ev, false, vx, vy, skip);
        ls2 := PassLooks(ev, vs, ls1, false, vx, vy);
      }
      forall j | 0 <= j < |vs|
        ensures Look(list.items[j].currentFrame, list.items[j].clicked) == ItemAfter(ev, vs, j, ls[j], vx, vy)
      {
        LookThroughPasses(ev, vs, j, ls[j], ls1[j], ls2[j], vx, vy, OverlayHit(ev, vs, |vs|, vx, vy));
      }
    }
  }

  /**
   * An item's look after both passes is what its own pass makes of it: the overlay pass
   * for overlay items, the second pass for the others when it runs.
   */
  lemma LookThroughPasses(ev: MouseEvent, vs: seq<LegacyView>, j: nat, l: Look, l1: Look, l2: Look, vx: int, vy: int, skip: bool)
    requires j < |vs| && skip == OverlayHit(ev, vs, |vs|, vx, vy)
    requires l1 == if InPass(vs[j], true) then LookAfter(ev, vs[j], vx, vy, l.clicked) else l
    requires l2 == if skip then l1 else if InPass(vs[j], false) then LookAfter(ev, vs[j], vx, vy, l1.clicked) else l1
    ensures l2 == ItemAfter(ev, vs, j, l, vx, vy)
  {
  }


}
