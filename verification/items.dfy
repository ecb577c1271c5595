/**
 * The scene item of sdl_item.cpp (item_t): a rectangle, three animation arrays with their
 * hover and click defaults, callbacks, an optional string or edit buffer, and the links of
 * the item list it belongs to.
 */
module Items {
  import opened Wrappers
  import opened U32
  import opened Media
  import opened AnimRecord

  datatype Rect = Rect(x: int, y: int, w: int, h: int)

  /** SiLayout: how an array of animations is placed inside the item. */
  datatype Layout = TopLeft | Center

  /** A registered callback together with the argument it is called with. */
  type Callback = nat

  /** A width and height, as sdl_get_string_size or an animation reports them. */
  datatype Size = Size(w: int, h: int)

  function Max(a: int, b: int): int
  {
    if a < b then b else a
  }

  /**
   * add_and_set_anim on the array's contents: the array grows to index + 1 entries when it
   * is too short, the new slots hold null, and slot `index` holds the animation.
   */
  function AddAndSet(list: seq<AnimT?>, anim: AnimT?, index: nat): (r: seq<AnimT?>)
    ensures |r| == Max(|list|, index + 1)
    ensures r[index] == anim
    ensures forall i | 0 <= i < |list| && i != index :: r[i] == list[i]
    ensures forall i | |list| <= i < |r| && i != index :: r[i] == null
  {
    if |list| <= index then list + seq(index - |list|, _ => null) + [anim]
    else list[index := anim]
  }

  /** add_and_set_anim: the realloc and the loop that clears the new slots. */
  method AddAndSetAnim(list: seq<AnimT?>, anim: AnimT?, index: nat) returns (r: seq<AnimT?>)
    ensures r == AddAndSet(list, anim, index)
  {
    r := list;
    if |r| <= index {
      var i := |list|;
      while i <= index
        invariant |list| <= i <= index + 1 && |r| == i
        invariant r[..|list|] == list && forall j | |list| <= j < i :: r[j] == null
      {
        r := r + [null];
        i := i + 1;
      }
    }
    r := r[index := anim];
  }

  /** What the item needs to show an animation and its string: the larger of each dimension. */
  function Need(anim: AnimT?, hasText: bool, text: Size): (s: Size)
    reads anim
    ensures anim != null ==> s.w >= anim.w && s.h >= anim.h
    ensures hasText ==> s.w >= text.w && s.h >= text.h
    ensures anim == null && !hasText ==> s == Size(0, 0)
    ensures s.w == 0 || (anim != null && s.w == anim.w) || (hasText && s.w == text.w)
    ensures s.h == 0 || (anim != null && s.h == anim.h) || (hasText && s.h == text.h)
  {
    var w := if anim != null then anim.w else 0;
    var h := if anim != null then anim.h else 0;
    if hasText then Size(Max(w, text.w), Max(h, text.h)) else Size(w, h)
  }

  /** The rectangle grown to hold `need`, never shrunk, its position unchanged. */
  function Grow(r: Rect, need: Size): (g: Rect)
    ensures g.x == r.x && g.y == r.y
    ensures g.w >= r.w && g.h >= r.h
    ensures g.w == r.w || g.w == need.w
    ensures g.h == r.h || g.h == need.h
  {
    Rect(r.x, r.y, if r.w < need.w then need.w else r.w, if r.h < need.h then need.h else r.h)
  }

  class Item {
    var rect: Rect
    var animStartTick: u32
    var overlay: int
    var anim: seq<AnimT?>
    var animOver: seq<AnimT?>
    var defaultAnimOver: seq<AnimT?>
    var animClick: seq<AnimT?>
    var defaultAnimClick: seq<AnimT?>
    var layout: Layout
    var animLoop: int
    var clicked: int
    var clickLeft: Option<Callback>
    var clickRight: Option<Callback>
    var doubleClickLeft: Option<Callback>
    var doubleClickRight: Option<Callback>
    var wheelUp: Option<Callback>
    var wheelDown: Option<Callback>
    var over: Option<Callback>
    var str: Option<string>
    var buffer: array?<char>
    var bufferSize: nat
    var stringBg: u32
    var font: Option<nat>
    var strTex: Texture
    var editable: int
    var editCb: Option<Callback>
    var next: Item?
    var last: Item?

    /** A fresh item as item_init leaves it: off-screen at (-1, -1), empty, looping, unlinked. */
    constructor()
      ensures rect == Rect(-1, -1, 0, 0) && animStartTick == 0 && overlay == 0
      ensures anim == [] && animOver == [] && defaultAnimOver == [] && animClick == [] && defaultAnimClick == []
      ensures layout == TopLeft && animLoop == 1 && clicked == 0
      ensures clickLeft.None? && clickRight.None? && doubleClickLeft.None? && doubleClickRight.None?
      ensures wheelUp.None? && wheelDown.None? && over.None?
      ensures str.None? && buffer == null && bufferSize == 0 && stringBg == 0 && font.None?
      ensures strTex == NullTexture && editable == 0 && editCb.None?
      ensures next == null && last == null
    {
      rect := Rect(-1, -1, 0, 0);
      animStartTick := 0;
      overlay := 0;
      anim := [];
      animOver := [];
      defaultAnimOver := [];
      animClick := [];
      defaultAnimClick := [];
      layout := TopLeft;
      animLoop := 1;
      clicked := 0;
      clickLeft := None;
      clickRight := None;
      doubleClickLeft := None;
      doubleClickRight := None;
      wheelUp := None;
      wheelDown := None;
      over := None;
      str := None;
      buffer := null;
      bufferSize := 0;
      stringBg := 0;
      font := None;
      strTex := NullTexture;
      editable := 0;
      editCb := None;
      next := null;
      last := null;
    }

    /** The item shows a string: its own, or the edit buffer that takes precedence over it. */
    predicate HasText()
      reads this
    {
      str.Some? || buffer != null
    }

    /**
     * item_set_anim: a non-null animation is stored at `index` of the default array, and
     * the rectangle grows to hold it and the displayed string (whose size `text` is what
     * sdl_get_string_size reports); the rectangle never shrinks.
     */
    method SetAnim(a: AnimT?, index: nat, text: Size)
      modifies this`anim, this`rect
      ensures anim == if a != null then AddAndSet(old(anim), a, index) else old(anim)
      ensures rect == Grow(old(rect), Need(a, HasText(), text))
    {
      var maxW := 0;
      var maxH := 0;
      if a != null {
        anim := AddAndSetAnim(anim, a, index);
        maxW := a.w;
        maxH := a.h;
      }
      if HasText() {
        if text.w > maxW {
          maxW := text.w;
        }
        if text.h > maxH {
          maxH := text.h;
        }
      }
      if rect.w < maxW {
        rect := rect.(w := maxW);
      }
      if rect.h < maxH {
        rect := rect.(h := maxH);
      }
    }

    /** item_set_pos: the item moves; its size stays. */
    method SetPos(x: int, y: int)
      modifies this`rect
      ensures rect == Rect(x, y, old(rect).w, old(rect).h)
    {
      rect := rect.(x := x, y := y);
    }

    /** item_set_geometry (item_set_anim_shape has the same effect): the rectangle becomes exactly the one given. */
    method SetGeometry(x: int, y: int, w: int, h: int)
      modifies this`rect
      ensures rect == Rect(x, y, w, h)
    {
      SetPos(x, y);
      rect := rect.(w := w, h := h);
    }

    /**
     * item_set_anim_array: the animations of a null-terminated array (given here without its
     * terminator) go to slots 0, 1, ... of the default array, each through item_set_anim.
     */
    method SetAnimArray(anims: seq<AnimT>, text: Size)
      modifies this`anim, this`rect
      ensures anim == SetAll(old(anim), anims, |anims|)
      ensures rect == GrowAll(old(rect), anims, |anims|, HasText(), text)
    {
      var n := 0;
      while n < |anims|
        invariant 0 <= n <= |anims|
        invariant anim == SetAll(old(anim), anims, n)
        invariant rect == GrowAll(old(rect), anims, n, HasText(), text)
      {
        SetAnim(anims[n], n, text);
        n := n + 1;
      }
    }

    /** item_set_anim_over: the animation goes to slot `index` of the hover default array. */
    method SetAnimOver(a: AnimT?, index: nat)
      modifies this`defaultAnimOver
      ensures defaultAnimOver == AddAndSet(old(defaultAnimOver), a, index)
    {
      defaultAnimOver := AddAndSetAnim(defaultAnimOver, a, index);
    }

    /** item_set_anim_over_array: nothing for a null array, otherwise slots 0, 1, ... */
    method SetAnimOverArray(anims: Option<seq<AnimT>>)
      modifies this`defaultAnimOver
      ensures anims.None? ==> defaultAnimOver == old(defaultAnimOver)
      ensures anims.Some? ==> defaultAnimOver == SetAll(old(defaultAnimOver), anims.value, |anims.value|)
    {
      if anims.None? {
        return;
      }
      var n := 0;
      while n < |anims.value|
        invariant 0 <= n <= |anims.value|
        invariant defaultAnimOver == SetAll(old(defaultAnimOver), anims.value, n)
      {
        SetAnimOver(anims.value[n], n);
        n := n + 1;
      }
    }

    /** item_set_anim_click: the animation goes to slot `index` of the click default array. */
    method SetAnimClick(a: AnimT?, index: nat)
      modifies this`defaultAnimClick
      ensures defaultAnimClick == AddAndSet(old(defaultAnimClick), a, index)
    {
      defaultAnimClick := AddAndSetAnim(defaultAnimClick, a, index);
    }

    /** item_set_anim_click_array: nothing for a null array, otherwise slots 0, 1, ... */
    method SetAnimClickArray(anims: Option<seq<AnimT>>)
      modifies this`defaultAnimClick
      ensures anims.None? ==> defaultAnimClick == old(defaultAnimClick)
      ensures anims.Some? ==> defaultAnimClick == SetAll(old(defaultAnimClick), anims.value, |anims.value|)
    {
      if anims.None? {
        return;
      }
      var n := 0;
      while n < |anims.value|
        invariant 0 <= n <= |anims.value|
        invariant defaultAnimClick == SetAll(old(defaultAnimClick), anims.value, n)
      {
        SetAnimClick(anims.value[n], n);
        n := n + 1;
      }
    }

    /** item_set_string: the item shows a copy of the string; its rendered text is dropped. */
    method SetString(s: string)
      modifies this`str, this`strTex
      ensures str == Some(s) && strTex == NullTexture
    {
      str := Some(s);
      if strTex != NullTexture {
        strTex := NullTexture;
      }
    }

    /** item_set_buffer: the item shows (and edits) the caller's buffer; its rendered text is dropped. */
    method SetBuffer(buf: array?<char>, size: nat)
      modifies this`buffer, this`bufferSize, this`strTex
      ensures buffer == buf && bufferSize == size && strTex == NullTexture
    {
      buffer := buf;
      bufferSize := size;
      if strTex != NullTexture {
        strTex := NullTexture;
      }
    }

    /** item_set_font: a new font; the text rendered with the old one is dropped. */
    method SetFont(f: Option<nat>)
      modifies this`font, this`strTex
      ensures font == f && strTex == NullTexture
    {
      font := f;
      if strTex != NullTexture {
        strTex := NullTexture;
      }
    }
  }

  /** The first k animations of an array stored through add_and_set_anim, one slot each. */
  function SetAll(list: seq<AnimT?>, anims: seq<AnimT>, k: nat): (r: seq<AnimT?>)
    requires k <= |anims|
    decreases k
  {
    if k == 0 then list else AddAndSet(SetAll(list, anims, k - 1), anims[k - 1], k - 1)
  }

  /** The rectangle after the first k calls of item_set_anim of an array. */
  function GrowAll(r: Rect, anims: seq<AnimT>, k: nat, hasText: bool, text: Size): Rect
    requires k <= |anims|
    reads set i | 0 <= i < |anims| :: anims[i]
    decreases k
  {
    if k == 0 then r else Grow(GrowAll(r, anims, k - 1, hasText, text), Need(anims[k - 1], hasText, text))
  }

  /**
   * After an array of animations is set, its entries fill slots 0 .. k-1 in order, the
   * array has max(old length, k) entries, and the slots past k keep their old contents.
   */
  lemma {:induction false} SetAllFillsPrefix(list: seq<AnimT?>, anims: seq<AnimT>, k: nat)
    requires k <= |anims|
    ensures var r := SetAll(list, anims, k);
      |r| == Max(|list|, k) &&
      (forall i | 0 <= i < k :: r[i] == anims[i]) &&
      (forall i | k <= i < |list| :: r[i] == list[i])
    decreases k
  {
    if k > 0 {
      SetAllFillsPrefix(list, anims, k - 1);
    }
  }

  /** Setting an array only ever grows the rectangle, and it ends up holding every animation set. */
  lemma {:induction false} GrowAllCovers(r: Rect, anims: seq<AnimT>, k: nat, hasText: bool, text: Size)
    requires k <= |anims|
    ensures var g := GrowAll(r, anims, k, hasText, text);
      g.x == r.x && g.y == r.y && g.w >= r.w && g.h >= r.h &&
      forall i | 0 <= i < k :: g.w >= anims[i].w && g.h >= anims[i].h
    decreases k
  {
    if k > 0 {
      GrowAllCovers(r, anims, k - 1, hasText, text);
    }
  }

  /**
   * The item list: `head` is the caller's item_t* (null for an empty list); `items` is the
   * chain the next pointers form, and the head's `last` points at its final item.
   */
  class ItemList {
    var head: Item?
    ghost var items: seq<Item>

    ghost predicate Valid()
      reads this, items`next, items`last
    {
      (head == null <==> items == []) &&
      (items != [] ==> head == items[0] && head.last == items[|items| - 1] && items[|items| - 1].next == null) &&
      (forall i | 0 <= i < |items| - 1 :: items[i].next == items[i + 1]) &&
      (forall i, j | 0 <= i < j < |items| :: items[i] != items[j])
    }

    constructor()
      ensures Valid() && items == [] && head == null
    {
      head := null;
      items := [];
    }

    /**
     * item_list_add: a new initialised item linked after the list's last item (or becoming
     * the head, its own last, when the list is empty); the head's `last` moves to it.
     */
    method Add() returns (item: Item)
      requires Valid()
      modifies this, (if head == null then {} else {head})`last, (if head == null then {} else {head.last})`next
      ensures Valid() && fresh(item) && items == old(items) + [item]
      ensures old(head) != null ==> head == old(head) && old(head.last).next == item
      ensures old(head) == null ==> head == item && item.last == item
      ensures item.rect == Rect(-1, -1, 0, 0) && item.anim == [] && item.layout == TopLeft && item.clicked == 0
    {
      item := new Item();
      if head != null {
        var lastItem := head.last;
        lastItem.next := item;
        head.last := item;
      } else {
        head := item;
        item.last := item;
      }
      items := items + [item];
    }
  }
}
