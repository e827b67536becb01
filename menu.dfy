/**
 * The scrolling menu: a selected line within a window of m_nLines lines
 * over a list of m_nObjects entries, scrolled by menu_scroll_pos.
 */
module Menu {

  /** The selection: the selected line of the window and the scroll offset. */
  datatype Cursor = Cursor(selected: int, scroll: int)

  /** The selected line is in the window, the scroll is not negative and the selected entry exists. */
  predicate Selects(c: Cursor, nObjects: int, nLines: int) {
    0 <= c.selected < nLines && 0 <= c.scroll && c.selected + c.scroll < nObjects
  }

  /** setMenuExtent as written: the line test uses '>' and the entry fallback ignores the scroll. */
  function ExtentAsWritten(c: Cursor, nObjects: int, maxLines: int): (r: Cursor)
    ensures r.scroll == c.scroll
  {
    var selected := if c.selected > maxLines then maxLines - 1 else c.selected;
    if selected + c.scroll >= nObjects then Cursor(nObjects - 1, c.scroll) else Cursor(selected, c.scroll)
  }

  /**
   * setMenuExtent as intended: a selected line at or past the window's end
   * moves to its last line, and a selected entry past the list's end moves
   * to the last entry (keeping the scroll when it still shows that entry,
   * else placing it as goBottom does).
   */
  function Extent(c: Cursor, nObjects: int, maxLines: int): (r: Cursor)
    ensures r.selected < maxLines && r.selected + r.scroll < nObjects
  {
    var selected := if c.selected >= maxLines then maxLines - 1 else c.selected;
    if selected + c.scroll < nObjects then Cursor(selected, c.scroll)
    else if c.scroll <= nObjects - 1 then Cursor(nObjects - 1 - c.scroll, c.scroll)
    else Bottom(nObjects, maxLines)
  }

  /** goBottom: the last entry selected, on the last line when the list fills the window. */
  function Bottom(nObjects: int, nLines: int): (r: Cursor)
    ensures r.selected + r.scroll == nObjects - 1
  {
    if nObjects < nLines then Cursor(nObjects - 1, 0) else Cursor(nLines - 1, nObjects - nLines)
  }

  /** goBottom selects the last entry, and does so from a valid position whenever there is an entry and a line. */
  lemma BottomSelects(nObjects: int, nLines: int)
    requires nObjects >= 1 && nLines >= 1
    ensures Selects(Bottom(nObjects, nLines), nObjects, nLines)
  {
  }

  /** After setMenuExtent, the selection is valid for the new extent, and a valid one is left alone. */
  lemma ExtentSelects(c: Cursor, nObjects: int, maxLines: int)
    requires nObjects >= 1 && maxLines >= 1 && c.selected >= 0 && c.scroll >= 0
    ensures Selects(Extent(c, nObjects, maxLines), nObjects, maxLines)
    ensures Selects(c, nObjects, maxLines) ==> Extent(c, nObjects, maxLines) == c
  {
    BottomSelects(nObjects, maxLines);
  }

  /** As written, a selected line equal to the window height survives, one line below the window. */
  lemma ExtentAsWrittenKeepsLinePastWindow()
    ensures ExtentAsWritten(Cursor(5, 0), 100, 5) == Cursor(5, 0)
    ensures !Selects(ExtentAsWritten(Cursor(5, 0), 100, 5), 100, 5)
    ensures Extent(Cursor(5, 0), 100, 5) == Cursor(4, 0)
  {
  }

  /** As written, a scrolled menu whose list shrinks keeps selecting an entry past the end. */
  lemma ExtentAsWrittenIgnoresScroll()
    ensures ExtentAsWritten(Cursor(2, 10), 5, 20) == Cursor(4, 10)
    ensures !Selects(ExtentAsWritten(Cursor(2, 10), 5, 20), 5, 20)
    ensures Extent(Cursor(2, 10), 5, 20) == Cursor(4, 0)
  {
  }

  class Menu {
    var selectedPos: int
    var menuScrollPos: int
    var nObjects: int
    var nLines: int

    constructor()
      ensures selectedPos == 0 && menuScrollPos == 0 && nObjects == -1 && nLines == -1
    {
      selectedPos := 0;
      menuScrollPos := 0;
      nObjects := -1;
      nLines := -1;
    }

    function Position(): Cursor
      reads this
    {
      Cursor(selectedPos, menuScrollPos)
    }

    /** getSelectedEntryIndex. */
    function SelectedEntryIndex(): (index: int)
      reads this
      ensures Valid() ==> 0 <= index < nObjects
    {
      selectedPos + menuScrollPos
    }

    ghost predicate Valid()
      reads this
    {
      Selects(Position(), nObjects, nLines)
    }

    /** setMenuExtent, with the line test and the entry fallback corrected. */
    method SetMenuExtent(nObjects: int, maxLines: int)
      modifies this
      ensures this.nObjects == nObjects && nLines == maxLines
      ensures Position() == Extent(old(Position()), nObjects, maxLines)
      ensures nObjects >= 1 && maxLines >= 1 && old(selectedPos) >= 0 && old(menuScrollPos) >= 0 ==> Valid()
    {
      this.nObjects := nObjects;
      nLines := maxLines;
      if selectedPos >= maxLines {
        selectedPos := maxLines - 1;
      }
      if SelectedEntryIndex() >= nObjects {
        if menuScrollPos <= nObjects - 1 {
          selectedPos := nObjects - 1 - menuScrollPos;
        } else {
          GoBottom();
        }
      }
      if nObjects >= 1 && maxLines >= 1 && old(selectedPos) >= 0 && old(menuScrollPos) >= 0 {
        ExtentSelects(old(Position()), nObjects, maxLines);
      }
    }

    /** setSelectedLine. */
    method SetSelectedLine(pos: int)
      modifies this`selectedPos
      ensures selectedPos == pos
    {
      selectedPos := pos;
    }

    /**
     * moveDown: nothing at the last entry; otherwise the selected entry
     * advances by one, on the next line or by scrolling at the window's end.
     */
    method MoveDown()
      modifies this`selectedPos, this`menuScrollPos
      ensures old(SelectedEntryIndex()) >= nObjects - 1 ==> Position() == old(Position())
      ensures old(SelectedEntryIndex()) < nObjects - 1 ==>
        SelectedEntryIndex() == old(SelectedEntryIndex()) + 1 &&
        (old(selectedPos) < nLines - 1 ==> menuScrollPos == old(menuScrollPos)) &&
        (old(selectedPos) >= nLines - 1 ==> selectedPos == old(selectedPos))
      ensures old(Valid()) ==> Valid()
    {
      if SelectedEntryIndex() >= nObjects - 1 {
        return;
      }
      if selectedPos < nLines - 1 {
        selectedPos := selectedPos + 1;
      } else {
        menuScrollPos := menuScrollPos + 1;
      }
    }

    /**
     * moveUp: on the first line the menu scrolls back if it can; otherwise
     * the selected line moves up, never below 0.
     */
    method MoveUp()
      modifies this`selectedPos, this`menuScrollPos
      ensures old(selectedPos) == 0 && old(menuScrollPos) > 0 ==> Position() == Cursor(0, old(menuScrollPos) - 1)
      ensures old(selectedPos) == 0 && old(menuScrollPos) <= 0 ==> Position() == old(Position())
      ensures old(selectedPos) != 0 ==> Position() == Cursor(if old(selectedPos) - 1 < 0 then 0 else old(selectedPos) - 1, old(menuScrollPos))
      ensures old(Valid()) ==> Valid() && SelectedEntryIndex() == (if old(SelectedEntryIndex()) > 0 then old(SelectedEntryIndex()) - 1 else 0)
    {
      if selectedPos == 0 {
        if menuScrollPos > 0 {
          menuScrollPos := menuScrollPos - 1;
        }
      } else {
        selectedPos := if selectedPos - 1 < 0 then 0 else selectedPos - 1;
      }
    }

    /** goTop. */
    method GoTop()
      modifies this`selectedPos, this`menuScrollPos
      ensures Position() == Cursor(0, 0)
      ensures nObjects >= 1 && nLines >= 1 ==> Valid()
    {
      selectedPos := 0;
      menuScrollPos := 0;
    }

    /** goBottom. */
    method GoBottom()
      modifies this`selectedPos, this`menuScrollPos
      ensures Position() == Bottom(nObjects, nLines)
      ensures SelectedEntryIndex() == nObjects - 1
    {
      if nObjects < nLines {
        menuScrollPos := 0;
        selectedPos := nObjects - 1;
      } else {
        selectedPos := nLines - 1;
        menuScrollPos := nObjects - nLines;
      }
    }
  }
}
