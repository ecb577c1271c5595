/**
 * Which animations sdl_blit_item (sdl.cpp) draws for an item and where: the hover array
 * wins over the click array, which wins over the default one, and under the CENTER
 * layout every animation is centred in the box of the largest.
 */
module ItemBlit {
  import opened U32
  import opened AnimRecord
  import opened Items

  /** An animation array is shown when it has a first entry and that entry is set. */
  predicate Shows(list: seq<AnimT?>)
  {
    |list| > 0 && list[0] != null
  }

  /** The array the item draws: hover, else click, else default, else none. */
  function Selected(item: Item): (sel: seq<AnimT?>)
    reads item
    ensures Shows(item.animOver) ==> sel == item.animOver
    ensures !Shows(item.animOver) && Shows(item.animClick) ==> sel == item.animClick
    ensures !Shows(item.animOver) && !Shows(item.animClick) && Shows(item.anim) ==> sel == item.anim
    ensures sel == [] <==> !Shows(item.animOver) && !Shows(item.animClick) && !Shows(item.anim)
  {
    if Shows(item.animOver) then item.animOver
    else if Shows(item.animClick) then item.animClick
    else if Shows(item.anim) then item.anim
    else []
  }

  predicate NonNull(list: seq<AnimT?>)
  {
    forall i | 0 <= i < |list| :: list[i] != null
  }

  function SizesOf(list: seq<AnimT?>): (s: seq<Size>)
    requires NonNull(list)
    reads set a: AnimT | a in list
    ensures |s| == |list| && forall i | 0 <= i < |list| :: s[i] == Size(list[i].w, list[i].h)
  {
    seq(|list|, i requires 0 <= i < |list| reads set a: AnimT | a in list => Size(list[i].w, list[i].h))
  }

  /** The widest width among the sizes, and 0 when none is positive. */
  function MaxWidth(s: seq<Size>): (m: int)
    ensures m >= 0 && forall i | 0 <= i < |s| :: s[i].w <= m
    ensures m == 0 || exists i | 0 <= i < |s| :: s[i].w == m
  {
    if s == [] then 0
    else
      var m := MaxWidth(s[..|s| - 1]);
      assert forall i | 0 <= i < |s| - 1 :: s[..|s| - 1][i] == s[i];
      if s[|s| - 1].w > m then s[|s| - 1].w else m
  }

  /** The tallest height among the sizes, and 0 when none is positive. */
  function MaxHeight(s: seq<Size>): (m: int)
    ensures m >= 0 && forall i | 0 <= i < |s| :: s[i].h <= m
    ensures m == 0 || exists i | 0 <= i < |s| :: s[i].h == m
  {
    if s == [] then 0
    else
      var m := MaxHeight(s[..|s| - 1]);
      assert forall i | 0 <= i < |s| - 1 :: s[..|s| - 1][i] == s[i];
      if s[|s| - 1].h > m then s[|s| - 1].h else m
  }

  /**
   * Where one animation of size s is drawn: at the item's corner, or centred in the
   * maxW x maxH box (C division, which truncates; the difference is never negative there).
   */
  function Place(r: Rect, layout: Layout, maxW: int, maxH: int, s: Size): Rect
    requires layout == Center ==> s.w <= maxW && s.h <= maxH
  {
    match layout
    case Center => Rect(r.x + (maxW - s.w) / 2, r.y + (maxH - s.h) / 2, s.w, s.h)
    case TopLeft => Rect(r.x, r.y, s.w, s.h)
  }

  /**
   * The rectangles the animations are drawn in: each has its animation's size; under
   * TOP_LEFT each sits at the item's corner; under CENTER each lies inside the box of the
   * largest, with the space left and right (above and below) equal or one more on the
   * right (below).
   */
  function Placement(r: Rect, layout: Layout, s: seq<Size>): (p: seq<Rect>)
    ensures |p| == |s|
    ensures forall i | 0 <= i < |s| :: p[i].w == s[i].w && p[i].h == s[i].h
    ensures layout == TopLeft ==> forall i | 0 <= i < |s| :: p[i].x == r.x && p[i].y == r.y
    ensures layout == Center ==> forall i | 0 <= i < |s| ::
      (var left := p[i].x - r.x; var right := r.x + MaxWidth(s) - (p[i].x + p[i].w);
       0 <= left && 0 <= right - left <= 1)
    ensures layout == Center ==> forall i | 0 <= i < |s| ::
      (var top := p[i].y - r.y; var bottom := r.y + MaxHeight(s) - (p[i].y + p[i].h);
       0 <= top && 0 <= bottom - top <= 1)
  {
    seq(|s|, i requires 0 <= i < |s| => Place(r, layout, MaxWidth(s), MaxHeight(s), s[i]))
  }

  /** One sdl_blit_anim call: the animation, its rectangle, and the playback arguments. */
  datatype Draw = Draw(anim: AnimT, at: Rect, loop: int, overlay: int, startTick: u32)

  /** The loop of sdl_blit_item that finds the box of the largest animation. */
  method MaxSize(list: seq<AnimT?>) returns (maxW: int, maxH: int)
    requires NonNull(list)
    ensures maxW == MaxWidth(SizesOf(list)) && maxH == MaxHeight(SizesOf(list))
  {
    ghost var s := SizesOf(list);
    maxW := 0;
    maxH := 0;
    var i := 0;
    while i < |list|
      invariant 0 <= i <= |list|
      invariant maxW == MaxWidth(s[..i]) && maxH == MaxHeight(s[..i])
    {
      assert s[..i + 1][..i] == s[..i];
      if list[i].w > maxW {
        maxW := list[i].w;
      }
      if list[i].h > maxH {
        maxH := list[i].h;
      }
      i := i + 1;
    }
    assert s[..|list|] == s;
  }

  /** The loop of sdl_blit_item that issues one draw call per animation. */
  method DrawAll(item: Item, list: seq<AnimT?>, maxW: int, maxH: int) returns (draws: seq<Draw>)
    requires NonNull(list)
    requires item.layout == Center ==> maxW == MaxWidth(SizesOf(list)) && maxH == MaxHeight(SizesOf(list))
    ensures |draws| == |list|
    ensures forall i | 0 <= i < |draws| ::
      draws[i] == Draw(list[i], Placement(item.rect, item.layout, SizesOf(list))[i], item.animLoop, item.overlay, item.animStartTick)
  {
    ghost var p := Placement(item.rect, item.layout, SizesOf(list));
    draws := [];
    var i := 0;
    while i < |list|
      invariant 0 <= i <= |list| && |draws| == i
      invariant forall j | 0 <= j < i ::
        draws[j] == Draw(list[j], p[j], item.animLoop, item.overlay, item.animStartTick)
    {
      var at := Place(item.rect, item.layout, maxW, maxH, Size(list[i].w, list[i].h));
      draws := draws + [Draw(list[i], at, item.animLoop, item.overlay, item.animStartTick)];
      i := i + 1;
    }
  }

  /**
   * sdl_blit_item: the draw calls, one per entry of the selected array in order, and
   * whether the item's string is printed after them (a font and a string or buffer).
   */
  method BlitItem(item: Item) returns (draws: seq<Draw>, printText: bool)
    requires NonNull(Selected(item))
    ensures |draws| == |Selected(item)|
    ensures forall i | 0 <= i < |draws| ::
      draws[i] == Draw(Selected(item)[i], Placement(item.rect, item.layout, SizesOf(Selected(item)))[i],
                       item.animLoop, item.overlay, item.animStartTick)
    ensures printText <==> item.font.Some? && item.HasText()
  {
    var list: seq<AnimT?> := [];
    if item.anim != [] && item.anim[0] != null {
      list := item.anim;
    }
    if item.animClick != [] && item.animClick[0] != null {
      list := item.animClick;
    }
    if item.animOver != [] && item.animOver[0] != null {
      list := item.animOver;
    }
    assert list == Selected(item);
    var maxW := 0;
    var maxH := 0;
    if item.layout == Center {
      maxW, maxH := MaxSize(list);
    }
    draws := DrawAll(item, list, maxW, maxH);
    printText := item.font.Some? && (item.str.Some? || item.buffer != null);
  }
}
