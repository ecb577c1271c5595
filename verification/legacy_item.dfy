/**
 * The older scene item of item.c: one animation (anim_t of anim.h) with a playback range
 * and fixed frame numbers for the normal, hover and click looks, a smooth-move record,
 * callbacks, an optional string, and the links of the item list.
 */
module LegacyItems {
  import opened Wrappers
  import opened U32
  import opened Media
  import opened AnimRecord
  import opened Items

  /** frame_normal when the item plays its animation instead of showing one frame. */
  const Animated := -1

  /**
   * What item_set_frame sizes the item to: the animation's size (0 x 0 without one), or
   * the string's rendered size where that is larger.
   */
  function FrameSize(anim: Size, hasString: bool, text: Size): (s: Size)
    ensures s.w >= anim.w && s.h >= anim.h
    ensures hasString ==> s.w >= text.w && s.h >= text.h
    ensures s.w == anim.w || (hasString && s.w == text.w)
    ensures s.h == anim.h || (hasString && s.h == text.h)
  {
    if hasString then Size(Max(anim.w, text.w), Max(anim.h, text.h)) else anim
  }

  class LegacyItem {
    var rect: Rect
    var x: int
    var y: int
    var oldX: int
    var oldY: int
    var timer: u32
    var overlay: int
    var anim: LegacyAnimT?
    var animStart: int
    var animEnd: int
    var currentFrame: int
    var frameNormal: int
    var frameOver: int
    var frameClick: int
    var animOver: LegacyAnimT?
    var defaultAnimOver: LegacyAnimT?
    var clicked: int
    var clickLeft: Option<Callback>
    var clickRight: Option<Callback>
    var doubleClickLeft: Option<Callback>
    var doubleClickRight: Option<Callback>
    var wheelUp: Option<Callback>
    var wheelDown: Option<Callback>
    var over: Option<Callback>
    var str: Option<string>
    var stringBg: u32
    var font: Option<nat>
    var strTex: Texture
    var editable: int
    var editCb: Option<Callback>
    var next: LegacyItem?
    var last: LegacyItem?

    /**
     * item_init: off-screen at (-1, -1) with no size, no smooth move, no animation (its
     * range open-ended, end -1), frame 0 everywhere, no callback and no string.
     */
    constructor()
      ensures rect == Rect(-1, -1, 0, 0) && x == -1 && y == -1 && oldX == -1 && oldY == -1 && timer == 0
      ensures overlay == 0 && anim == null && animStart == 0 && animEnd == -1
      ensures currentFrame == 0 && frameNormal == 0 && frameOver == 0 && frameClick == 0
      ensures animOver == null && defaultAnimOver == null && clicked == 0
      ensures clickLeft.None? && clickRight.None? && doubleClickLeft.None? && doubleClickRight.None?
      ensures wheelUp.None? && wheelDown.None? && over.None?
      ensures str.None? && stringBg == 0 && font.None? && strTex == NullTexture && editable == 0 && editCb.None?
      ensures next == null && last == null
    {
      rect := Rect(-1, -1, 0, 0);
      x := -1;
      y := -1;
      oldX := -1;
      oldY := -1;
      timer := 0;
      overlay := 0;
      anim := null;
      animStart := 0;
      animEnd := -1;
      currentFrame := 0;
      frameNormal := 0;
      frameOver := 0;
      animOver := null;
      defaultAnimOver := null;
      frameClick := 0;
      clicked := 0;
      clickLeft := None;
      clickRight := None;
      doubleClickLeft := None;
      doubleClickRight := None;
      wheelUp := None;
      wheelDown := None;
      over := None;
      str := None;
      stringBg := 0;
      font := None;
      strTex := NullTexture;
      editable := 0;
      editCb := None;
      next := null;
      last := null;
    }

    /** item_set_pos: the item moves; its size stays. */
    method SetPos(px: int, py: int)
      modifies this`rect
      ensures rect == Rect(px, py, old(rect).w, old(rect).h)
    {
      rect := rect.(x := px, y := py);
    }

    /**
     * item_set_frame: the item moves to (px, py), takes the animation when one is given,
     * and its size becomes exactly what the animation and the string need (the string's
     * rendered size `text` being what sdl_get_string_size reports). Unlike the C++ item,
     * the rectangle can shrink.
     */
    method SetFrame(px: int, py: int, a: LegacyAnimT?, text: Size)
      modifies this`rect, this`anim
      ensures anim == if a != null then a else old(anim)
      ensures rect == (var s := FrameSize(if a != null then Size(a.w, a.h) else Size(0, 0), str.Some?, text);
                       Rect(px, py, s.w, s.h))
    {
      var maxW := 0;
      var maxH := 0;
      SetPos(px, py);
      if a != null {
        anim := a;
        maxW := a.w;
        maxH := a.h;
      }
      if str.Some? {
        if text.w > maxW {
          maxW := text.w;
        }
        if text.h > maxH {
          maxH := text.h;
        }
      }
      rect := rect.(w := maxW, h := maxH);
    }

    /** item_set_frame_shape: position and size exactly as given. */
    method SetFrameShape(px: int, py: int, w: int, h: int)
      modifies this`rect
      ensures rect == Rect(px, py, w, h)
    {
      SetPos(px, py);
      rect := rect.(w := w, h := h);
    }

    /** item_set_anim: item_set_frame, and the item is marked as playing its animation. */
    method SetAnim(px: int, py: int, a: LegacyAnimT?, text: Size)
      modifies this`rect, this`anim, this`frameNormal
      ensures anim == if a != null then a else old(anim)
      ensures rect == (var s := FrameSize(if a != null then Size(a.w, a.h) else Size(0, 0), str.Some?, text);
                       Rect(px, py, s.w, s.h))
      ensures frameNormal == Animated
    {
      SetFrame(px, py, a, text);
      frameNormal := Animated;
    }

    /**
     * item_set_smooth_anim: the move from (ox, oy) to (px, py) and its start time are
     * recorded, then the item is placed and animated as item_set_anim does.
     */
    method SetSmoothAnim(px: int, py: int, ox: int, oy: int, t: u32, a: LegacyAnimT?, text: Size)
      modifies this`x, this`y, this`oldX, this`oldY, this`timer, this`rect, this`anim, this`frameNormal
      ensures x == px && y == py && oldX == ox && oldY == oy && timer == t
      ensures anim == if a != null then a else old(anim)
      ensures rect == (var s := FrameSize(if a != null then Size(a.w, a.h) else Size(0, 0), str.Some?, text);
                       Rect(px, py, s.w, s.h))
      ensures frameNormal == Animated
    {
      x := px;
      y := py;
      oldX := ox;
      oldY := oy;
      timer := t;
      SetFrame(px, py, a, text);
      frameNormal := Animated;
    }

    /** item_set_string: the item shows a copy of the string; its rendered text is dropped. */
    method SetString(s: string)
      modifies this`str, this`strTex
      ensures str == Some(s) && strTex == NullTexture
    {
      str := Some(s);
      if strTex != NullTexture {
        strTex := NullTexture;
      }
    }

    /** item_set_font: a new font; the text rendered with the old one is dropped. */
    method SetFont(f: Option<nat>)
      modifies this`font, this`strTex
      ensures font == f && strTex == NullTexture
    {
      font := f;
      if strTex != NullTexture {
        strTex := NullTexture;
      }
    }
  }

  /** The list of legacy items: `head` is *item_list, `items` the chain of next pointers. */
  class LegacyItemList {
    var head: LegacyItem?
    ghost var items: seq<LegacyItem>

    ghost predicate Valid()
      reads this, items`next, items`last
    {
      (head == null <==> items == []) &&
      (items != [] ==> head == items[0] && head.last == items[|items| - 1] && items[|items| - 1].next == null) &&
      (forall i | 0 <= i < |items| - 1 :: items[i].next == items[i + 1]) &&
      (forall i, j | 0 <= i < j < |items| :: items[i] != items[j])
    }

    constructor()
      ensures Valid() && items == [] && head == null
    {
      head := null;
      items := [];
    }

    /**
     * item_list_add: a new initialised item linked after head->last (or becoming the
     * head, its own last, when the list is empty); head->last moves to it.
     */
    method Add() returns (item: LegacyItem)
      requires Valid()
      modifies this, (if head == null then {} else {head})`last, (if head == null then {} else {head.last})`next
      ensures Valid() && fresh(item) && items == old(items) + [item]
      ensures old(head) != null ==> head == old(head) && old(head.last).next == item
      ensures old(head) == null ==> head == item && item.last == item
      ensures item.rect == Rect(-1, -1, 0, 0) && item.anim == null && item.frameNormal == 0 && item.animEnd == -1
    {
      item := new LegacyItem();
      if head != null {
        var lastItem := head.last;
        lastItem.next := item;
        head.last := item;
      } else {
        head := item;
        item.last := item;
      }
      items := items + [item];
    }
  }
}
