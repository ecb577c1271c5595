/**
 * SdlItem (SdlItem.cpp): the C++ scene item. Its animation lists are vectors of
 * animations, its rectangle grows as animations are added, and its text is a string
 * that the edit keys extend and shorten.
 */
module SdlItems {
  import opened Wrappers
  import opened U32
  import opened Media
  import opened Items

  /** The size of an animation as getWidth and getHeight report it. */
  function SizeOf(a: SiAnim): Size
    reads a`width, a`height
  {
    Size(a.width, a.height)
  }

  /**
   * The rectangle after the first k animations of a vector have been looked at: each
   * dimension is raised to the animation's when that is larger.
   */
  function Covering(r: Rect, anims: seq<SiAnim>, k: nat): Rect
    requires k <= |anims|
    reads set i | 0 <= i < |anims| :: anims[i]
    decreases k
  {
    if k == 0 then r else Grow(Covering(r, anims, k - 1), SizeOf(anims[k - 1]))
  }

  /**
   * Covering keeps the position and makes each dimension the largest of the old one and
   * those of the animations: no smaller than any of them, and equal to one of them.
   */
  lemma {:induction false} CoveringIsMaximum(r: Rect, anims: seq<SiAnim>, k: nat)
    requires k <= |anims|
    ensures var c := Covering(r, anims, k);
      c.x == r.x && c.y == r.y && c.w >= r.w && c.h >= r.h &&
      (forall i | 0 <= i < k :: c.w >= anims[i].width && c.h >= anims[i].height) &&
      (c.w == r.w || exists i | 0 <= i < k :: c.w == anims[i].width) &&
      (c.h == r.h || exists i | 0 <= i < k :: c.h == anims[i].height)
    decreases k
  {
    if k > 0 {
      CoveringIsMaximum(r, anims, k - 1);
    }
  }

  /** What pushAnim makes room for: the animation, and the text when there is any. */
  function Fit(anim: Size, hasText: bool, text: Size): (s: Size)
    ensures s.w >= anim.w && s.h >= anim.h
    ensures hasText ==> s.w >= text.w && s.h >= text.h
    ensures s.w == anim.w || (hasText && s.w == text.w)
    ensures s.h == anim.h || (hasText && s.h == text.h)
    ensures !hasText ==> s == anim
  {
    if hasText then Size(Max(anim.w, text.w), Max(anim.h, text.h)) else anim
  }

  /** The length a size_t subtraction `len - quantity` yields, quantity being a C int. */
  function SizeDiff(len: nat, quantity: int): nat
  {
    (len - quantity) % 0x1_0000_0000_0000_0000
  }

  /**
   * removeFromText on a string: substr(0, len - quantity) with the subtraction done in
   * size_t, so a quantity from 0 to the length drops that many characters from the end,
   * and any other quantity wraps to a count at least the length and keeps the whole text
   * (for any text shorter than 2^63 characters, far above what a std::string can hold).
   */
  function Truncated(t: string, quantity: int): (r: string)
    requires -0x8000_0000 <= quantity < 0x8000_0000
    ensures r <= t
    ensures |t| < 0x8000_0000_0000_0000 && 0 <= quantity <= |t| ==> r == t[..|t| - quantity]
    ensures |t| < 0x8000_0000_0000_0000 && (quantity < 0 || quantity > |t|) ==> r == t
  {
    var n := SizeDiff(|t|, quantity);
    if n < |t| then t[..n] else t
  }

  /** addToText of s followed by removeFromText of |s| gives the text back. */
  lemma AddThenRemove(t: string, s: string)
    requires |s| < 0x8000_0000 && |t| + |s| < 0x8000_0000_0000_0000
    ensures Truncated(t + s, |s|) == t
  {
    assert (t + s)[..|t|] == t;
  }

  class SdlItem {
    var rect: Rect
    var animStartTick: u32
    var overlay: bool
    var animArray: seq<SiAnim>
    var animOver: seq<SiAnim>
    var defaultAnimOver: seq<SiAnim>
    var animClick: seq<SiAnim>
    var defaultAnimClick: seq<SiAnim>
    var layout: Layout
    var animLoop: bool
    var clicked: bool
    var clickLeftCb: Option<Callback>
    var clickRightCb: Option<Callback>
    var doubleClickLeftCb: Option<Callback>
    var doubleClickRightCb: Option<Callback>
    var wheelUpCb: Option<Callback>
    var wheelDownCb: Option<Callback>
    var overCb: Option<Callback>
    var text: string
    var backgroundColor: u32
    var font: Option<nat>
    var textTexture: Texture
    var editable: bool
    var editCb: Option<Callback>

    /** A new item: at (-1, -1) with no size, no animation, no text, looping, not clicked, not overlay. */
    constructor()
      ensures rect == Rect(-1, -1, 0, 0) && animStartTick == 0 && !overlay
      ensures animArray == [] && animOver == [] && defaultAnimOver == [] && animClick == [] && defaultAnimClick == []
      ensures layout == TopLeft && animLoop && !clicked
      ensures clickLeftCb.None? && clickRightCb.None? && doubleClickLeftCb.None? && doubleClickRightCb.None?
      ensures wheelUpCb.None? && wheelDownCb.None? && overCb.None?
      ensures text == "" && backgroundColor == 0 && font.None? && textTexture == NullTexture
      ensures !editable && editCb.None?
    {
      rect := Rect(-1, -1, 0, 0);
      animStartTick := 0;
      overlay := false;
      animArray := [];
      animOver := [];
      defaultAnimOver := [];
      animClick := [];
      defaultAnimClick := [];
      layout := TopLeft;
      animLoop := true;
      clicked := false;
      clickLeftCb := None;
      clickRightCb := None;
      doubleClickLeftCb := None;
      doubleClickRightCb := None;
      wheelUpCb := None;
      wheelDownCb := None;
      overCb := None;
      text := "";
      backgroundColor := 0;
      font := None;
      textTexture := NullTexture;
      editable := false;
      editCb := None;
    }

    /** setPos: the item moves; its size stays. */
    method SetPos(x: int, y: int)
      modifies this`rect
      ensures rect == Rect(x, y, old(rect).w, old(rect).h)
    {
      rect := rect.(x := x, y := y);
    }

    /** setShape: the item takes the size given; its position stays. */
    method SetShape(w: int, h: int)
      modifies this`rect
      ensures rect == Rect(old(rect).x, old(rect).y, w, h)
    {
      rect := rect.(w := w, h := h);
    }

    /**
     * setAnim of a vector: the vector replaces the animation list, and the rectangle
     * grows to hold every animation in it (it never shrinks).
     */
    method SetAnimArray(anims: seq<SiAnim>)
      modifies this`animArray, this`rect
      ensures animArray == anims
      ensures rect == Covering(old(rect), anims, |anims|)
    {
      animArray := anims;
      var n := 0;
      while n < |anims|
        invariant 0 <= n <= |anims|
        invariant animArray == anims && rect == Covering(old(rect), anims, n)
      {
        var a := anims[n];
        if a.width > rect.w {
          rect := rect.(w := a.width);
        }
        if a.height > rect.h {
          rect := rect.(h := a.height);
        }
        n := n + 1;
      }
    }

    /**
     * setAnim of one animation: the list becomes that animation alone and the rectangle
     * takes exactly its size, smaller or larger than before.
     */
    method SetAnim(anim: SiAnim)
      modifies this`animArray, this`rect
      ensures animArray == [anim]
      ensures rect == Rect(old(rect).x, old(rect).y, anim.width, anim.height)
    {
      animArray := [anim];
      SetShape(anim.width, anim.height);
    }

    /**
     * pushAnim: the animation is appended, and the rectangle grows to hold it and, when
     * the text is not empty, the text (whose rendered size `textSize` is what
     * sdl_get_string_size reports); it never shrinks.
     */
    method PushAnim(anim: SiAnim, textSize: Size)
      modifies this`animArray, this`rect
      ensures animArray == old(animArray) + [anim]
      ensures rect == Grow(old(rect), Fit(SizeOf(anim), text != "", textSize))
    {
      var maxWidth := anim.width;
      var maxHeight := anim.height;
      animArray := animArray + [anim];
      if |text| != 0 {
        if textSize.w > maxWidth {
          maxWidth := textSize.w;
        }
        if textSize.h > maxHeight {
          maxHeight := textSize.h;
        }
      }
      if rect.w < maxWidth {
        rect := rect.(w := maxWidth);
      }
      if rect.h < maxHeight {
        rect := rect.(h := maxHeight);
      }
    }

    /** clearAnim: the default list is emptied; the other lists are not touched. */
    method ClearAnim()
      modifies this`animArray
      ensures animArray == []
    {
      animArray := [];
    }

    /** setAnimClick: the click list is replaced. */
    method SetAnimClick(anims: seq<SiAnim>)
      modifies this`animClick
      ensures animClick == anims
    {
      animClick := anims;
    }

    /** clearAnimClick: the click list is emptied; the other lists are not touched. */
    method ClearAnimClick()
      modifies this`animClick
      ensures animClick == []
    {
      animClick := [];
    }

    /** setAnimOver of a vector: the hover list is replaced. */
    method SetAnimOverArray(anims: seq<SiAnim>)
      modifies this`animOver
      ensures animOver == anims
    {
      animOver := anims;
    }

    /** setAnimOver of one animation: the hover list becomes that animation alone. */
    method SetAnimOver(anim: SiAnim)
      modifies this`animOver
      ensures animOver == [anim]
    {
      animOver := [anim];
    }

    /** clearAnimOver: the hover list is emptied; the other lists are not touched. */
    method ClearAnimOver()
      modifies this`animOver
      ensures animOver == []
    {
      animOver := [];
    }

    /** setRectX: only the horizontal position changes. */
    method SetRectX(x: int)
      modifies this`rect
      ensures rect == old(rect).(x := x)
    {
      rect := rect.(x := x);
    }

    /** setRectY: only the vertical position changes. */
    method SetRectY(y: int)
      modifies this`rect
      ensures rect == old(rect).(y := y)
    {
      rect := rect.(y := y);
    }

    /** setText: the text is replaced. */
    method SetText(t: string)
      modifies this`text
      ensures text == t
    {
      text := t;
    }

    /** addToText: the string is appended to the text. */
    method AddToText(t: string)
      modifies this`text
      ensures text == old(text) + t
    {
      text := text + t;
    }

    /** removeFromText: the text loses `quantity` characters at its end (see Truncated). */
    method RemoveFromText(quantity: int)
      requires -0x8000_0000 <= quantity < 0x8000_0000
      modifies this`text
      ensures text == Truncated(old(text), quantity)
    {
      var n := SizeDiff(|text|, quantity);
      if n < |text| {
        text := text[..n];
      }
    }
  }
}
