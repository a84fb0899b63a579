/** The text-selection model of the text view: a selection is a pair of
    bounds, each bound sits between two text positions (the one before the
    caret and the one after it), and the hit test maps a point of the screen
    onto a bound by scanning the laid-out element rectangles of the page. */
module SelectionModel {

  /** A text position that may be missing (`present` is the source's
      `Exists` flag). */
  datatype BoundElement = BoundElement(
    present: bool,
    paragraphNumber: int,
    textElementNumber: int,
    charNumber: int)

  /** The caret between two positions. */
  datatype Bound = Bound(before: BoundElement, after: BoundElement)

  const Absent := BoundElement(false, 0, 0, 0)

  /** `BoundElement::operator==`: all four fields agree. */
  function Equal(a: BoundElement, b: BoundElement): (r: bool)
    ensures r <==> a == b
  {
    a.present == b.present &&
    a.paragraphNumber == b.paragraphNumber &&
    a.textElementNumber == b.textElementNumber &&
    a.charNumber == b.charNumber
  }

  /** `BoundElement::operator!=`, the negation of `Equal`. */
  function NotEqual(a: BoundElement, b: BoundElement): (r: bool)
    ensures r <==> a != b
  {
    !Equal(a, b)
  }

  /** `Bound::operator<`, written as the chain of early returns of the
      source: a bound with no `before` position is the least, a bound with no
      `after` position the greatest; otherwise the `before` positions are
      compared. */
  function Less(a: Bound, b: Bound): bool
  {
    if !b.before.present then false
    else if !a.before.present then true
    else if !a.after.present then false
    else if !b.after.present then true
    else if a.before.paragraphNumber < b.before.paragraphNumber then true
    else if a.before.paragraphNumber > b.before.paragraphNumber then false
    else if a.before.textElementNumber < b.before.textElementNumber then true
    else if a.before.textElementNumber > b.before.textElementNumber then false
    else a.before.charNumber < b.before.charNumber
  }

  /** Reference definition: the strict lexicographic order on
      (paragraph, text element, char). */
  predicate LexLess(p: BoundElement, q: BoundElement)
  {
    p.paragraphNumber < q.paragraphNumber ||
    (p.paragraphNumber == q.paragraphNumber &&
      (p.textElementNumber < q.textElementNumber ||
        (p.textElementNumber == q.textElementNumber && p.charNumber < q.charNumber)))
  }

  predicate Complete(b: Bound)
  {
    b.before.present && b.after.present
  }

  lemma LessIrreflexive(a: Bound)
    ensures !Less(a, a)
  {
  }

  /** Nothing is below a bound without a `before` position, and such a bound
      is below every bound that has one. */
  lemma MissingBeforeIsLeast(a: Bound, b: Bound)
    ensures !b.before.present ==> !Less(a, b)
    ensures !a.before.present && b.before.present ==> Less(a, b)
  {
  }

  /** Between two complete bounds, `Less` is the lexicographic order of their
      `before` positions. */
  lemma LessIsLexicographic(a: Bound, b: Bound)
    requires Complete(a) && Complete(b)
    ensures Less(a, b) <==> LexLess(a.before, b.before)
  {
  }

  lemma LessAsymmetric(a: Bound, b: Bound)
    ensures Less(a, b) ==> !Less(b, a)
  {
  }

  lemma LessTransitive(a: Bound, b: Bound, c: Bound)
    requires Less(a, b) && Less(b, c)
    ensures Less(a, c)
  {
  }

  /** `range()`: the selected span, from the `after` position of the lesser
      bound to the `before` position of the greater one. */
  function RangeOf(first: Bound, second: Bound): (BoundElement, BoundElement)
  {
    if Less(second, first) then (second.after, first.before)
    else (first.after, second.before)
  }

  /** The span does not depend on which bound was set first, whenever the
      two bounds are ordered one way or the other. */
  lemma RangeOrderIndependent(first: Bound, second: Bound)
    requires Less(first, second) || Less(second, first)
    ensures RangeOf(first, second) == RangeOf(second, first)
  {
    LessAsymmetric(first, second);
    LessAsymmetric(second, first);
  }

  /** The span always starts at the `after` position of a bound that is not
      above the other one, and ends at the `before` position of the other. */
  lemma RangeStartsAtLesserBound(first: Bound, second: Bound)
    ensures var r := RangeOf(first, second);
      (r.0 == first.after && r.1 == second.before && !Less(second, first)) ||
      (r.0 == second.after && r.1 == first.before && Less(second, first) && !Less(first, second))
  {
    LessAsymmetric(second, first);
  }

  // ---------------------------------------------------------------------
  // The hit test of `setBound`.

  datatype ElementKind = Word | OtherElement

  /** One laid-out element of the page: its rectangle and its place in the
      text. */
  datatype TextElementArea = TextElementArea(
    xStart: int, xEnd: int, yStart: int, yEnd: int,
    paragraphNumber: int, textElementNumber: int,
    startCharNumber: int, length: int,
    kind: ElementKind)

  /** The scan over the element map stops at the first element that lies on
      a later line than the point, or on its line and ends to its right. */
  predicate StopsAt(e: TextElementArea, x: int, y: int)
  {
    e.yStart > y || (e.yEnd > y && e.xEnd > x)
  }

  /** `TextElementArea::RangeChecker`: the point lies inside the rectangle
      (borders included). */
  predicate Covers(e: TextElementArea, x: int, y: int)
  {
    e.xStart <= x <= e.xEnd && e.yStart <= y <= e.yEnd
  }

  /** The index where the scan stops; `|elements|` when it runs off the end. */
  function FirstStop(elements: seq<TextElementArea>, x: int, y: int): (r: nat)
    ensures r <= |elements|
    ensures forall k :: 0 <= k < r ==> !StopsAt(elements[k], x, y)
    ensures r < |elements| ==> StopsAt(elements[r], x, y)
  {
    if |elements| == 0 then 0
    else if StopsAt(elements[0], x, y) then 0
    else 1 + FirstStop(elements[1..], x, y)
  }

  /** The loop of `setBound` over the element map. */
  method FindStop(elements: seq<TextElementArea>, x: int, y: int) returns (i: nat)
    ensures i == FirstStop(elements, x, y)
  {
    i := 0;
    while i < |elements|
      invariant i <= |elements|
      invariant forall k :: 0 <= k < i ==> !StopsAt(elements[k], x, y)
    {
      if StopsAt(elements[i], x, y) {
        break;
      }
      i := i + 1;
    }
  }

  /** The font metrics: the width of the first `n` characters of the word
      laid out in an element. */
  type WordWidth = (TextElementArea, int) -> int

  /** How far the point lies to the right of the end of the first `k`
      characters of the word (`k == 0` is the start of the element). */
  function Diff(e: TextElementArea, deltaX: int, width: WordWidth, k: int): int
  {
    if k == 0 then deltaX else deltaX - width(e, k)
  }

  /** Where the character loop stops when started at `n`: the first boundary
      that reaches the point, or the end of the word. */
  function Reach(e: TextElementArea, deltaX: int, width: WordWidth, n: nat): (r: nat)
    ensures n <= r
    ensures r == n || r <= e.length
    ensures forall k :: n <= k < r ==> k < e.length && Diff(e, deltaX, width, k) > 0
    ensures r >= e.length || Diff(e, deltaX, width, r) <= 0
    decreases e.length - n
  {
    if n >= e.length || Diff(e, deltaX, width, n) <= 0 then n
    else Reach(e, deltaX, width, n + 1)
  }

  /** The character boundary chosen for a point `deltaX` pixels into a word:
      of the last boundary before the point and the first one at or past it,
      the nearer one (a tie goes to the later boundary). */
  function NearestChar(e: TextElementArea, deltaX: int, width: WordWidth): int
  {
    var n := Reach(e, deltaX, width, 0);
    var previous := if n == 0 then Diff(e, deltaX, width, 0) else Diff(e, deltaX, width, n - 1);
    if previous + Diff(e, deltaX, width, n) < 0 then n - 1 else n
  }

  /** The character loop of `setBound`. */
  method CharIndex(e: TextElementArea, deltaX: int, width: WordWidth) returns (index: int)
    ensures index == NearestChar(e, deltaX, width)
  {
    var diff := deltaX;
    var previousDiff := diff;
    index := 0;
    while index < e.length && diff > 0
      invariant 0 <= index
      invariant diff == Diff(e, deltaX, width, index)
      invariant previousDiff == if index == 0 then Diff(e, deltaX, width, 0) else Diff(e, deltaX, width, index - 1)
      invariant Reach(e, deltaX, width, index) == Reach(e, deltaX, width, 0)
      decreases e.length - index
    {
      previousDiff := diff;
      diff := deltaX - width(e, index + 1);
      index := index + 1;
    }
    if previousDiff + diff < 0 {
      index := index - 1;
    }
  }

  function Abs(v: int): nat
  {
    if v < 0 then -v else v
  }

  /** For a point at or right of the start of the word, the chosen boundary
      lies within the word. */
  lemma NearestCharInWord(e: TextElementArea, deltaX: int, width: WordWidth)
    requires deltaX >= 0
    ensures 0 <= NearestChar(e, deltaX, width)
    ensures NearestChar(e, deltaX, width) <= e.length || NearestChar(e, deltaX, width) == 0
  {
  }

  /** When the point lies inside the word, the chosen boundary is the one of
      the two around the point that is nearer to it (the later one on a
      tie), and every boundary before those two lies left of the point. */
  lemma NearestCharIsNearest(e: TextElementArea, deltaX: int, width: WordWidth)
    requires deltaX >= 0
    requires 0 < Reach(e, deltaX, width, 0) && Diff(e, deltaX, width, Reach(e, deltaX, width, 0)) <= 0
    ensures var n := Reach(e, deltaX, width, 0);
      var r := NearestChar(e, deltaX, width);
      (r == n - 1 || r == n) &&
      Abs(Diff(e, deltaX, width, r)) <= Abs(Diff(e, deltaX, width, n - 1)) &&
      Abs(Diff(e, deltaX, width, r)) <= Abs(Diff(e, deltaX, width, n)) &&
      (forall k :: 0 <= k < n ==> Diff(e, deltaX, width, k) > 0) &&
      (r == n - 1 <==> Abs(Diff(e, deltaX, width, n - 1)) < Abs(Diff(e, deltaX, width, n)))
  {
  }

  function StartOf(e: TextElementArea): BoundElement
  {
    BoundElement(true, e.paragraphNumber, e.textElementNumber, e.startCharNumber)
  }

  function EndOf(e: TextElementArea): BoundElement
  {
    BoundElement(true, e.paragraphNumber, e.textElementNumber, e.startCharNumber + e.length)
  }

  /** `setBound` as a function of the old bound: the fields the source does
      not assign keep their old values. */
  function BoundAt(bound: Bound, elements: seq<TextElementArea>, x: int, y: int, width: WordWidth): Bound
  {
    if |elements| == 0 then bound
    else
      var i := FirstStop(elements, x, y);
      if i < |elements| then
        var e := elements[i];
        var after := StartOf(e);
        if Covers(e, x, y) then
          if e.kind == Word then
            var c := e.startCharNumber + NearestChar(e, x - e.xStart, width);
            var at := after.(charNumber := c);
            Bound(at, at)
          else
            Bound(bound.before.(present := true, paragraphNumber := e.paragraphNumber,
                                textElementNumber := e.textElementNumber), after)
        else if i == 0 then
          Bound(bound.before.(present := false), after)
        else
          Bound(EndOf(elements[i - 1]), after)
      else
        Bound(EndOf(elements[|elements| - 1]), bound.after.(present := false))
  }

  /** `setBound`: the scan, then the case analysis on the element found. */
  method SetBound(bound: Bound, elements: seq<TextElementArea>, x: int, y: int, width: WordWidth)
    returns (result: Bound)
    ensures result == BoundAt(bound, elements, x, y, width)
    ensures |elements| == 0 ==> result == bound
  {
    if |elements| == 0 {
      return bound;
    }
    var i := FindStop(elements, x, y);
    if i < |elements| {
      var e := elements[i];
      var after := BoundElement(true, e.paragraphNumber, e.textElementNumber, e.startCharNumber);
      var before := bound.before;
      if Covers(e, x, y) {
        before := before.(paragraphNumber := after.paragraphNumber,
                          textElementNumber := after.textElementNumber, present := true);
        if e.kind == Word {
          var index := CharIndex(e, x - e.xStart, width);
          after := after.(charNumber := e.startCharNumber + index);
          before := before.(charNumber := after.charNumber);
        }
      } else if i == 0 {
        before := before.(present := false);
      } else {
        var previous := elements[i - 1];
        before := BoundElement(true, previous.paragraphNumber, previous.textElementNumber,
                               previous.startCharNumber + previous.length);
      }
      result := Bound(before, after);
    } else {
      var back := elements[|elements| - 1];
      result := Bound(BoundElement(true, back.paragraphNumber, back.textElementNumber,
                                   back.startCharNumber + back.length),
                      bound.after.(present := false));
    }
  }

  /** `i` is the element where the scan stops. */
  predicate StopsFirstAt(elements: seq<TextElementArea>, x: int, y: int, i: int)
  {
    0 <= i < |elements| && StopsAt(elements[i], x, y) &&
    forall k :: 0 <= k < i ==> !StopsAt(elements[k], x, y)
  }

  /** A point over a word collapses the bound onto one caret position inside
      that word: `before` and `after` are the same present position. */
  lemma BoundOnWordCollapses(bound: Bound, elements: seq<TextElementArea>, x: int, y: int,
                             width: WordWidth, i: int)
    requires StopsFirstAt(elements, x, y, i)
    requires Covers(elements[i], x, y) && elements[i].kind == Word
    ensures var b := BoundAt(bound, elements, x, y, width);
      var e := elements[i];
      b.before == b.after && b.after.present &&
      b.after.paragraphNumber == e.paragraphNumber &&
      b.after.textElementNumber == e.textElementNumber &&
      e.startCharNumber <= b.after.charNumber &&
      (b.after.charNumber <= e.startCharNumber + e.length || b.after.charNumber == e.startCharNumber)
  {
    assert FirstStop(elements, x, y) == i;
    NearestCharInWord(elements[i], x - elements[i].xStart, width);
  }

  /** A point over an element that is not a word puts both positions on
      that element; the `before` position keeps the character number it had
      (the source assigns it only for words). */
  lemma BoundOnOtherElementKeepsChar(bound: Bound, elements: seq<TextElementArea>, x: int, y: int,
                                     width: WordWidth, i: int)
    requires StopsFirstAt(elements, x, y, i)
    requires Covers(elements[i], x, y) && elements[i].kind != Word
    ensures var b := BoundAt(bound, elements, x, y, width);
      b.after == StartOf(elements[i]) && b.before.present &&
      b.before.paragraphNumber == elements[i].paragraphNumber &&
      b.before.textElementNumber == elements[i].textElementNumber &&
      b.before.charNumber == bound.before.charNumber
  {
    assert FirstStop(elements, x, y) == i;
  }

  /** A point in the gap before element `i > 0` lies between the end of the
      previous element and the start of element `i`. */
  lemma BoundInGap(bound: Bound, elements: seq<TextElementArea>, x: int, y: int,
                   width: WordWidth, i: int)
    requires StopsFirstAt(elements, x, y, i) && i > 0
    requires !Covers(elements[i], x, y)
    ensures BoundAt(bound, elements, x, y, width) == Bound(EndOf(elements[i - 1]), StartOf(elements[i]))
  {
    assert FirstStop(elements, x, y) == i;
  }

  /** A point before the first element has no `before` position. */
  lemma BoundBeforeText(bound: Bound, elements: seq<TextElementArea>, x: int, y: int, width: WordWidth)
    requires |elements| > 0 && StopsAt(elements[0], x, y) && !Covers(elements[0], x, y)
    ensures var b := BoundAt(bound, elements, x, y, width);
      !b.before.present && b.after == StartOf(elements[0])
  {
    assert FirstStop(elements, x, y) == 0;
  }

  /** A point after all the elements of the page has no `after` position and
      its `before` position is the end of the last element. */
  lemma BoundAfterText(bound: Bound, elements: seq<TextElementArea>, x: int, y: int, width: WordWidth)
    requires |elements| > 0
    requires forall k :: 0 <= k < |elements| ==> !StopsAt(elements[k], x, y)
    ensures var b := BoundAt(bound, elements, x, y, width);
      !b.after.present && b.before == EndOf(elements[|elements| - 1])
  {
    assert FirstStop(elements, x, y) == |elements|;
  }

  // ---------------------------------------------------------------------
  // The selection state.

  /** The direction of the selection scroller (`SelectionScroller::Direction`). */
  datatype ScrollDirection = DontScroll | ScrollForward | ScrollBackward

  class Selection {
    var isActive: bool
    var emptyFlag: bool
    var doUpdate: bool
    var firstBound: Bound
    var secondBound: Bound
    /** The paragraphs the last copied text went through. */
    var cursors: set<int>
    var storedX: int
    var storedY: int
    var scrolling: ScrollDirection

    /** An active selection is never flagged empty. */
    predicate Valid()
      reads this
    {
      isActive ==> !emptyFlag
    }

    constructor ()
      ensures !isActive && emptyFlag && !doUpdate
      ensures firstBound == Bound(Absent, Absent) && secondBound == Bound(Absent, Absent)
      ensures cursors == {} && scrolling == DontScroll
      ensures Valid() && IsEmpty()
    {
      isActive := false;
      emptyFlag := true;
      doUpdate := false;
      firstBound := Bound(Absent, Absent);
      secondBound := Bound(Absent, Absent);
      cursors := {};
      storedX := 0;
      storedY := 0;
      scrolling := DontScroll;
    }

    function Range(): (BoundElement, BoundElement)
      reads this
    {
      RangeOf(firstBound, secondBound)
    }

    /** `isEmpty()`: flagged empty, or the span misses an end, or both ends
        are the same position. */
    function IsEmpty(): bool
      reads this
    {
      var r := Range();
      emptyFlag || !r.0.present || !r.1.present || Equal(r.0, r.1)
    }

    /** `activate`: start a selection at a point of the page. */
    method Activate(elements: seq<TextElementArea>, x: int, y: int, width: WordWidth)
      modifies this
      ensures |elements| == 0 ==> unchanged(this)
      ensures |elements| > 0 ==>
        isActive && !emptyFlag && doUpdate == old(doUpdate) &&
        firstBound == BoundAt(old(firstBound), elements, x, y, width) &&
        secondBound == firstBound && cursors == {} &&
        storedX == old(storedX) && storedY == old(storedY) && scrolling == old(scrolling)
      ensures |elements| > 0 ==> Valid()
      ensures old(Valid()) ==> Valid()
    {
      if |elements| == 0 {
        return;
      }
      isActive := true;
      emptyFlag := false;
      firstBound := SetBound(firstBound, elements, x, y, width);
      secondBound := firstBound;
      cursors := {};
    }

    /** `extendTo`: move the second bound to a point; the result tells
        whether the span changed. The scroller runs backward when the point
        is before the text, forward when it is after it. */
    method ExtendTo(elements: seq<TextElementArea>, x: int, y: int, width: WordWidth)
      returns (changed: bool)
      modifies this
      ensures !old(isActive) || |elements| == 0 ==> !changed && unchanged(this)
      ensures old(isActive) && |elements| > 0 ==>
        secondBound == BoundAt(old(secondBound), elements, x, y, width) &&
        storedX == x && storedY == y &&
        isActive == old(isActive) && emptyFlag == old(emptyFlag) && doUpdate == old(doUpdate) &&
        firstBound == old(firstBound) && cursors == old(cursors) &&
        scrolling == (if !secondBound.before.present then ScrollBackward
                      else if !secondBound.after.present then ScrollForward
                      else DontScroll)
      ensures changed <==> Range() != old(Range())
      ensures !changed ==> IsEmpty() == old(IsEmpty())
      ensures old(Valid()) ==> Valid()
    {
      if !isActive || |elements| == 0 {
        return false;
      }
      var oldRange := Range();
      secondBound := SetBound(secondBound, elements, x, y, width);
      var newRange := Range();
      storedX := x;
      storedY := y;
      if !secondBound.before.present {
        scrolling := ScrollBackward;
      } else if !secondBound.after.present {
        scrolling := ScrollForward;
      } else {
        scrolling := DontScroll;
      }
      changed := NotEqual(oldRange.0, newRange.0) || NotEqual(oldRange.1, newRange.1);
    }

    /** `deactivate`: stop extending; the selection itself is kept. */
    method Deactivate()
      modifies this
      ensures !isActive && !doUpdate && scrolling == DontScroll
      ensures emptyFlag == old(emptyFlag) && firstBound == old(firstBound) &&
        secondBound == old(secondBound) && cursors == old(cursors) &&
        storedX == old(storedX) && storedY == old(storedY)
      ensures IsEmpty() == old(IsEmpty())
      ensures Valid()
    {
      scrolling := DontScroll;
      isActive := false;
      doUpdate := false;
    }

    /** `clear`: drop the selection. */
    method Clear()
      modifies this
      ensures emptyFlag && !isActive && !doUpdate && cursors == {} && scrolling == DontScroll
      ensures firstBound == old(firstBound) && secondBound == old(secondBound) &&
        storedX == old(storedX) && storedY == old(storedY)
      ensures IsEmpty() && Valid()
    {
      scrolling := DontScroll;
      emptyFlag := true;
      isActive := false;
      doUpdate := false;
      cursors := {};
    }
  }

  /** Pressing on a word, or past the end of the text, starts an empty
      selection: both bounds are the same and their span has no extent. */
  lemma ActivationOnWordIsEmpty(bound: Bound, elements: seq<TextElementArea>, x: int, y: int,
                                width: WordWidth)
    requires |elements| > 0
    requires var i := FirstStop(elements, x, y);
      i == |elements| || (Covers(elements[i], x, y) && elements[i].kind == Word)
    ensures var b := BoundAt(bound, elements, x, y, width);
      var r := RangeOf(b, b);
      !r.0.present || !r.1.present || Equal(r.0, r.1)
  {
    var i := FirstStop(elements, x, y);
    if i < |elements| {
      BoundOnWordCollapses(bound, elements, x, y, width, i);
    }
  }
}
