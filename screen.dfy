/**
 * The group-creation picker screen (GroupCreateActivity) as an object whose
 * methods update its fields in place: the selection table (`selectedContacts`
 * and `allSpans`), the text field with its chips, the search-mode flags, the
 * published search results and the query of the live debounce timer.
 */
module GroupCreate {
  import opened Wrappers
  import opened Chips
  import opened Selection
  import opened ContactSearch

  /** How a tap on a contact row ended. */
  datatype ClickOutcome =
    | Selected      // the user was added: a new chip at the end of the list
    | Deselected    // the user was removed together with its chip
    | AtCapacity    // the user was not selected and 200 members already are: nothing happens
    | SpanMissing   // the user is selected but its chip is no longer in the text: the delete throws

  /**
   * `String.substring(begin, end)` of the pre-edit text inside the
   * try/catch of the text-change handler: the caught exception leaves "".
   */
  function DeletedText(s: string, begin: int, end: int): (r: string)
    ensures |r| > 0 <==> 0 <= begin < end <= |s|
    ensures |r| > 0 ==> |r| == end - begin
  {
    if 0 <= begin <= end <= |s| then s[begin..end] else ""
  }

  /** Whether an edit makes the handler run the chip reconciliation: the text shrank and some text was deleted. */
  function Reconciles(oldText: seq<Slot>, newText: seq<Slot>, beforeIndex: int, afterIndex: int): (r: bool)
    ensures r <==> |newText| < |oldText| && 0 <= afterIndex < beforeIndex <= |oldText|
  {
    |newText| < |oldText| && |DeletedText(Render(oldText), afterIndex, beforeIndex)| > 0
  }

  /** The query typed into the field: its characters with every chip placeholder left out. */
  function TypedQuery(t: seq<Slot>): (q: string)
    ensures '<' !in q && |q| <= |t|
    ensures |q| == 0 <==> forall i :: 0 <= i < |t| ==> t[i].Placeholder? || t[i] == Typed('<')
    ensures forall i :: 0 <= i < |t| && t[i].Typed? && t[i].ch != '<' ==> t[i].ch in q
  {
    StripPlaceholders(Render(t))
  }

  /** The query of a concatenated text is the two queries one after the other: order and count are kept. */
  lemma TypedQueryAppend(x: seq<Slot>, y: seq<Slot>)
    ensures TypedQuery(x + y) == TypedQuery(x) + TypedQuery(y)
  {
    RenderAppend(x, y);
    StripAppend(Render(x), Render(y));
  }

  /** One slot contributes its character to the query unless it shows '<'. */
  lemma TypedQuerySlot(slot: Slot)
    ensures TypedQuery([slot]) == if CharOf(slot) == '<' then [] else [CharOf(slot)]
  {
    assert Render([slot]) == [CharOf(slot)];
    StripOne(CharOf(slot));
  }

  /**
   * The selection table: the map's keys are exactly the chips' uids, each key
   * maps to its own chip, no uid has two chips, at most 200 users are selected.
   */
  ghost predicate SelectionTable(selected: map<int, Chip>, spans: seq<Chip>)
  {
    && Distinct(spans)
    && |spans| <= MaxMembers
    && selected.Keys == Uids(spans)
    && (forall u :: u in selected ==> selected[u] == u)
  }

  /** The two published result lists are both absent or of equal length. */
  ghost predicate ResultsPaired(found: Option<seq<User>>, names: Option<seq<HighlightedName>>)
  {
    && (found.Some? <==> names.Some?)
    && (found.Some? ==> |found.value| == |names.value|)
  }

  /** A user that is selected has a chip in the list. */
  lemma SelectedHasChip(selected: map<int, Chip>, spans: seq<Chip>, uid: int) returns (i: nat)
    requires SelectionTable(selected, spans) && uid in selected
    ensures i < |spans| && spans[i] == uid && selected[uid] == uid
  {
    assert uid in Uids(spans);
    i :| 0 <= i < |spans| && spans[i] == uid;
  }

  /** Deselecting keeps the table: the user's key and its chip leave together. */
  lemma DeselectKeepsTable(selected: map<int, Chip>, spans: seq<Chip>, uid: int)
    requires SelectionTable(selected, spans) && uid in selected
    ensures SelectionTable(selected - {uid}, RemoveFirst(spans, selected[uid]))
  {
    var i := SelectedHasChip(selected, spans, uid);
    DeselectSplices(spans, i);
  }

  /** On a text rebuilt from the list, the chip of a selected user is there and deleting it gives the rebuilt text of the shorter list. */
  lemma DeselectOnRebuiltTable(selected: map<int, Chip>, spans: seq<Chip>, uid: int)
    requires SelectionTable(selected, spans) && uid in selected
    ensures InText(ChipText(spans), selected[uid])
    ensures DeleteSpan(ChipText(spans), selected[uid]) == ChipText(RemoveFirst(spans, selected[uid]))
  {
    var i := SelectedHasChip(selected, spans, uid);
    DeselectOnRebuiltText(spans, i);
  }

  /** The map has one entry per chip. */
  lemma TableSize(selected: map<int, Chip>, spans: seq<Chip>)
    requires SelectionTable(selected, spans)
    ensures |selected| == |spans| <= MaxMembers
  {
    DistinctSize(spans);
    assert |selected| == |selected.Keys|;
  }

  /** Selecting a user that is not selected, below the cap, keeps the table. */
  lemma SelectKeepsTable(selected: map<int, Chip>, spans: seq<Chip>, uid: int)
    requires SelectionTable(selected, spans) && uid !in selected && |selected| != MaxMembers
    ensures SelectionTable(selected[uid := uid], spans + [uid])
  {
    TableSize(selected, spans);
    assert uid !in spans;
    DistinctAppend(spans, [uid]);
    AddUid(spans, uid);
  }

  lemma AddUid(spans: seq<Chip>, uid: int)
    ensures Uids(spans + [uid]) == Uids(spans) + {uid}
  {
    UidsAppend(spans, [uid]);
    assert Uids([uid]) == {uid};
  }

  /** The sweep keeps the table: the dropped chips' users leave the map with them. */
  lemma SweepKeepsTable(selected: map<int, Chip>, spans: seq<Chip>, t: seq<Slot>)
    requires SelectionTable(selected, spans)
    ensures SelectionTable(selected - Uids(Dropped(spans, t)), Sweep(spans, t))
  {
    SweepKeepsSelection(spans, t);
  }

  class GroupCreateScreen {
    /** User id to chip of each selected user. */
    var selectedContacts: map<int, Chip>
    /** The chips, in the order they were added. */
    var allSpans: seq<Chip>
    /** The contents of the text field. */
    var text: seq<Slot>
    /** The caret (selection end) of the text field. */
    var caret: int
    var searching: bool
    var searchWas: bool
    /** The published search results and their highlighted names; `None` stands for `null`. */
    var searchResult: Option<seq<User>>
    var searchResultNames: Option<seq<HighlightedName>>
    /** The query the scheduled search timer will run, if one is scheduled. */
    var pendingQuery: Option<string>

    /** The screen's invariant: the selection table holds and the result lists are paired. */
    ghost predicate Valid()
      reads this
    {
      SelectionTable(selectedContacts, allSpans) && ResultsPaired(searchResult, searchResultNames)
    }

    /** The screen as `createView` leaves it: nothing selected, no search. */
    constructor()
      ensures Valid()
      ensures selectedContacts == map[] && allSpans == [] && text == [] && caret == 0
      ensures !searching && !searchWas
      ensures searchResult == None && searchResultNames == None && pendingQuery == None
    {
      selectedContacts := map[];
      allSpans := [];
      text := [];
      caret := 0;
      searching := false;
      searchWas := false;
      searchResult := None;
      searchResultNames := None;
      pendingQuery := None;
    }

    /** Whether a row for `uid` shows its check mark. */
    function IsChecked(uid: int): (r: bool)
      reads this
      ensures Valid() ==> (r <==> uid in allSpans)
    {
      uid in selectedContacts
    }

    /** What the "done" button passes on: the selected user ids, or nothing when none is selected. */
    function DoneSelection(): (r: Option<set<int>>)
      reads this
      ensures r.None? <==> |selectedContacts| == 0
      ensures r.Some? ==> r.value == selectedContacts.Keys
      ensures Valid() && r.Some? ==> r.value == Uids(allSpans) && 0 < |r.value|
    {
      if |selectedContacts| == 0 then None else Some(selectedContacts.Keys)
    }

    /** Writes "<<" per chip, in list order, and puts the caret at the end. */
    method RebuildText()
      modifies this`text, this`caret
      ensures text == ChipText(allSpans) && caret == |text|
    {
      var ssb: seq<Slot> := [];
      for i := 0 to |allSpans|
        invariant ssb == ChipText(allSpans[..i])
      {
        assert allSpans[..i + 1][..i] == allSpans[..i];
        ssb := ssb + [Placeholder(allSpans[i]), Placeholder(allSpans[i])];
      }
      assert allSpans[..|allSpans|] == allSpans;
      text := ssb;
      caret := |ssb|;
    }

    /** `createAndPutChipForUser` followed by `span.uid = user.id`. */
    method CreateAndPutChip(uid: int) returns (span: Chip)
      modifies this
      ensures span == uid
      ensures allSpans == old(allSpans) + [uid]
      ensures selectedContacts == old(selectedContacts)[uid := uid]
      ensures text == ChipText(allSpans) && caret == |text|
      ensures searching == old(searching) && searchWas == old(searchWas)
      ensures searchResult == old(searchResult) && searchResultNames == old(searchResultNames)
      ensures pendingQuery == old(pendingQuery)
    {
      span := uid;
      allSpans := allSpans + [span];
      selectedContacts := selectedContacts[uid := span];
      RebuildText();
    }

    /**
     * The deselect path of the row tap handler: the user's key leaves the map,
     * then the chip's span is deleted from the text (which throws when the span
     * is gone, leaving the list and the text as they were), the chip leaves the
     * list and the caret goes to the end.
     */
    method RemoveChip(uid: int) returns (removed: bool)
      modifies this`selectedContacts, this`allSpans, this`text, this`caret
      requires uid in selectedContacts
      ensures selectedContacts == old(selectedContacts) - {uid}
      ensures removed <==> InText(old(text), old(selectedContacts)[uid])
      ensures removed ==>
        && allSpans == RemoveFirst(old(allSpans), old(selectedContacts)[uid])
        && text == DeleteSpan(old(text), old(selectedContacts)[uid])
        && caret == |text|
      ensures !removed ==> allSpans == old(allSpans) && text == old(text) && caret == old(caret)
    {
      var span := selectedContacts[uid];
      selectedContacts := selectedContacts - {uid};
      if SpanStart(text, span) == -1 {
        // `text.delete(-1, -1)` throws before the chip list is touched.
        return false;
      }
      text := DeleteSpan(text, span);
      allSpans := RemoveFirst(allSpans, span);
      caret := |text|;
      removed := true;
    }

    /**
     * The row tap handler for user `uid`: deselect when selected, else select
     * unless 200 users are selected; after a change made while searching, leave
     * search mode and rebuild the text.
     */
    method OnItemClick(uid: int) returns (outcome: ClickOutcome)
      modifies this
      ensures outcome == AtCapacity <==> uid !in old(selectedContacts) && |old(selectedContacts)| == MaxMembers
      ensures outcome == Selected <==> uid !in old(selectedContacts) && |old(selectedContacts)| != MaxMembers
      ensures outcome == SpanMissing <==>
        uid in old(selectedContacts) && !InText(old(text), old(selectedContacts)[uid])
      ensures outcome == Deselected <==>
        uid in old(selectedContacts) && InText(old(text), old(selectedContacts)[uid])
      ensures outcome == AtCapacity ==> unchanged(this)
      ensures outcome == Selected ==>
        && allSpans == old(allSpans) + [uid]
        && selectedContacts == old(selectedContacts)[uid := uid]
        && text == ChipText(allSpans)
      ensures outcome == Deselected ==>
        && selectedContacts == old(selectedContacts) - {uid}
        && allSpans == RemoveFirst(old(allSpans), old(selectedContacts)[uid])
        && text == if old(searching || searchWas) then ChipText(allSpans)
                   else DeleteSpan(old(text), old(selectedContacts)[uid])
      ensures outcome == Selected || outcome == Deselected ==> !searching && !searchWas && caret == |text|
      ensures outcome == SpanMissing ==>
        && selectedContacts == old(selectedContacts) - {uid}
        && allSpans == old(allSpans) && text == old(text) && caret == old(caret)
        && searching == old(searching) && searchWas == old(searchWas)
      ensures searchResult == old(searchResult) && searchResultNames == old(searchResultNames)
      ensures pendingQuery == old(pendingQuery)
      ensures old(Valid()) && outcome != SpanMissing ==> Valid()
      ensures old(Valid()) && old(text) == ChipText(old(allSpans)) ==>
        outcome != SpanMissing && text == ChipText(allSpans)
    {
      ghost var wasTable := SelectionTable(selectedContacts, allSpans);
      ghost var wasRebuilt := text == ChipText(allSpans);
      if uid in selectedContacts {
        if wasTable {
          DeselectKeepsTable(selectedContacts, allSpans, uid);
          if wasRebuilt {
            DeselectOnRebuiltTable(selectedContacts, allSpans, uid);
          }
        }
        var removed := RemoveChip(uid);
        if !removed {
          return SpanMissing;
        }
        outcome := Deselected;
      } else {
        if |selectedContacts| == MaxMembers {
          return AtCapacity;
        }
        if wasTable {
          SelectKeepsTable(selectedContacts, allSpans, uid);
        }
        var span := CreateAndPutChip(uid);
        outcome := Selected;
      }
      LeaveSearch();
    }

    /** After a selection change made while searching: leave search mode and rebuild the text from the chips. */
    method LeaveSearch()
      modifies this`searching, this`searchWas, this`text, this`caret
      ensures !searching && !searchWas
      ensures old(searching || searchWas) ==> text == ChipText(allSpans) && caret == |text|
      ensures !old(searching || searchWas) ==> text == old(text) && caret == old(caret)
    {
      if searching || searchWas {
        searching := false;
        searchWas := false;
        RebuildText();
      }
    }

    /**
     * The reconciliation loop of the text-change handler: walk the chip list
     * and drop every visited chip whose span is gone from the text, from the
     * list and from the map. The index advances also after a removal, so the
     * chip that moves into the removed one's place is not visited.
     */
    method ReconcileDeletedChips()
      modifies this`allSpans, this`selectedContacts
      ensures allSpans == LoopRun(old(allSpans), 0, text).0
      ensures selectedContacts == old(selectedContacts) - Uids(LoopRun(old(allSpans), 0, text).1)
      ensures Distinct(old(allSpans)) ==>
        && allSpans == Sweep(old(allSpans), text)
        && selectedContacts == old(selectedContacts) - Uids(Dropped(old(allSpans), text))
    {
      var t := text;
      var spans := allSpans;
      var selected := selectedContacts;
      ghost var dropped: seq<Chip> := [];
      ghost var survivors, casualties := LoopRun(spans, 0, t).0, LoopRun(spans, 0, t).1;
      EmptyEnds(casualties);
      var a := 0;
      while a < |spans|
        invariant LoopRun(spans, a, t).0 == survivors
        invariant dropped + LoopRun(spans, a, t).1 == casualties
        invariant selected == old(selectedContacts) - Uids(dropped)
        decreases |spans| - a
      {
        var sp := spans[a];
        if SpanStart(t, sp) == -1 {
          ghost var rest := LoopRun(RemoveFirst(spans, sp), a + 1, t);
          Regroup(dropped, sp, rest.1);
          ForgetOneMore(old(selectedContacts), dropped, sp);
          spans := RemoveFirst(spans, sp);
          selected := selected - {sp};
          dropped := dropped + [sp];
        }
        a := a + 1;
      }
      EmptyEnds(dropped);
      allSpans := spans;
      selectedContacts := selected;
      if Distinct(old(allSpans)) {
        LoopRunIsSweep(old(allSpans), t);
      }
    }

    /**
     * `afterTextChanged` for an edit that changed the text from `text` to
     * `newText`, with `beforeIndex` the selection start before the edit and
     * `afterIndex` the selection end after it. When the edit deleted text the
     * chips whose spans went with it are reconciled; the typed query then
     * either schedules a search and enters search mode or, when empty, clears
     * the results and leaves search mode. After a reconciliation this happens
     * only if the screen was showing search results.
     */
    method AfterTextChanged(newText: seq<Slot>, beforeIndex: int, afterIndex: int)
      modifies this
      ensures text == newText && caret == afterIndex
      ensures Reconciles(old(text), newText, beforeIndex, afterIndex) ==>
        && allSpans == LoopRun(old(allSpans), 0, newText).0
        && selectedContacts == old(selectedContacts) - Uids(LoopRun(old(allSpans), 0, newText).1)
      ensures Reconciles(old(text), newText, beforeIndex, afterIndex) && Distinct(old(allSpans)) ==>
        && allSpans == Sweep(old(allSpans), newText)
        && selectedContacts == old(selectedContacts) - Uids(Dropped(old(allSpans), newText))
      ensures !Reconciles(old(text), newText, beforeIndex, afterIndex) ==>
        allSpans == old(allSpans) && selectedContacts == old(selectedContacts)
      ensures var search := !Reconciles(old(text), newText, beforeIndex, afterIndex) || old(searching && searchWas);
        && (search && |TypedQuery(newText)| > 0 ==>
              searching && searchWas && pendingQuery == Some(TypedQuery(newText))
              && searchResult == old(searchResult) && searchResultNames == old(searchResultNames))
        && (search && |TypedQuery(newText)| == 0 ==>
              !searching && !searchWas && searchResult == None && searchResultNames == None
              && pendingQuery == old(pendingQuery))
        && (!search ==>
              searching == old(searching) && searchWas == old(searchWas) && pendingQuery == old(pendingQuery)
              && searchResult == old(searchResult) && searchResultNames == old(searchResultNames))
      ensures old(Valid()) ==> Valid()
    {
      var search := TakeEdit(newText, beforeIndex, afterIndex);
      if search {
        ApplyQuery();
      }
    }

    /**
     * The first half of the text-change handler: take the edited text and,
     * when the edit shrank the text and the deleted substring is not empty,
     * reconcile the chips. Answers whether the search step runs: always
     * without a reconciliation, and after one only in search mode.
     */
    method TakeEdit(newText: seq<Slot>, beforeIndex: int, afterIndex: int) returns (search: bool)
      modifies this`text, this`caret, this`allSpans, this`selectedContacts
      ensures text == newText && caret == afterIndex
      ensures search == (!Reconciles(old(text), newText, beforeIndex, afterIndex) || (searching && searchWas))
      ensures Reconciles(old(text), newText, beforeIndex, afterIndex) ==>
        && allSpans == LoopRun(old(allSpans), 0, newText).0
        && selectedContacts == old(selectedContacts) - Uids(LoopRun(old(allSpans), 0, newText).1)
      ensures Reconciles(old(text), newText, beforeIndex, afterIndex) && Distinct(old(allSpans)) ==>
        && allSpans == Sweep(old(allSpans), newText)
        && selectedContacts == old(selectedContacts) - Uids(Dropped(old(allSpans), newText))
      ensures !Reconciles(old(text), newText, beforeIndex, afterIndex) ==>
        allSpans == old(allSpans) && selectedContacts == old(selectedContacts)
      ensures old(SelectionTable(selectedContacts, allSpans)) ==> SelectionTable(selectedContacts, allSpans)
    {
      ghost var wasTable := SelectionTable(selectedContacts, allSpans);
      var oldText := text;
      text := newText;
      caret := afterIndex;
      search := false;
      if |newText| < |oldText| {
        var deletedString := DeletedText(Render(oldText), afterIndex, beforeIndex);
        if |deletedString| > 0 {
          if searching && searchWas {
            search := true;
          }
          if wasTable {
            SweepKeepsTable(selectedContacts, allSpans, text);
          }
          ReconcileDeletedChips();
        } else {
          search := true;
        }
      } else {
        search := true;
      }
    }

    /**
     * The search step of the text-change handler: a non-empty typed query
     * schedules a search (replacing any scheduled one) and enters search
     * mode; an empty one clears both result lists and leaves search mode.
     */
    method ApplyQuery()
      modifies this`searching, this`searchWas, this`pendingQuery, this`searchResult, this`searchResultNames
      ensures |TypedQuery(text)| > 0 ==>
        && searching && searchWas && pendingQuery == Some(TypedQuery(text))
        && searchResult == old(searchResult) && searchResultNames == old(searchResultNames)
      ensures |TypedQuery(text)| == 0 ==>
        && !searching && !searchWas && searchResult == None && searchResultNames == None
        && pendingQuery == old(pendingQuery)
    {
      var q := StripPlaceholders(Render(text));
      if |q| != 0 {
        pendingQuery := Some(q);
        searching := true;
        searchWas := true;
      } else {
        searchResult := None;
        searchResultNames := None;
        searching := false;
        searchWas := false;
      }
    }

    /**
     * The scheduled search firing: `processSearch` on the current contact
     * list and user directory, then `updateSearchResults` publishing both
     * lists. The search-mode flags are not touched.
     */
    method RunPendingSearch(contacts: seq<int>, users: map<int, User>, clientId: int)
      modifies this`searchResult, this`searchResultNames, this`pendingQuery
      requires pendingQuery.Some? && |pendingQuery.value| > 0 ==> Resolvable(contacts, users)
      ensures pendingQuery == None
      ensures old(pendingQuery).None? ==>
        searchResult == old(searchResult) && searchResultNames == old(searchResultNames)
      ensures old(pendingQuery).Some? ==>
        var q := old(pendingQuery).value;
        && searchResult == Some(if |q| == 0 then [] else Matching(contacts, users, Lower(q), clientId))
        && searchResultNames == Some(NamesFor(searchResult.value, Lower(q)))
      ensures old(Valid()) ==> Valid()
    {
      if pendingQuery.Some? {
        var q := pendingQuery.value;
        var found, names := ProcessSearch(q, contacts, users, clientId);
        assert names == NamesFor(found, Lower(q));
        searchResult := Some(found);
        searchResultNames := Some(names);
      }
      pendingQuery := None;
    }
  }

  /** The selection table never holds more than 200 users, and the map has one entry per chip. */
  lemma SelectionBounded(screen: GroupCreateScreen)
    requires screen.Valid()
    ensures |screen.selectedContacts| == |screen.allSpans| <= MaxMembers
  {
    TableSize(screen.selectedContacts, screen.allSpans);
  }

  /** The text after users 1 and 2 are selected, and erasing all of it reconciles the chips. */
  lemma TwoChipText()
    ensures ChipText([1, 2]) == [Placeholder(1), Placeholder(1), Placeholder(2), Placeholder(2)]
    ensures Reconciles(ChipText([1, 2]), [], 4, 0)
    ensures Uids([1]) == {1}
  {
    ChipTextAppend([1], [2]);
    ChipTextSingle(1);
    ChipTextSingle(2);
    assert [1] + [2] == [1, 2];
    assert |Render(ChipText([1, 2]))| == 4;
    assert 1 in [1];
  }

  /** A fresh screen on which users 1 and 2 were tapped, in that order. */
  method SelectTwo() returns (screen: GroupCreateScreen)
    ensures fresh(screen)
    ensures screen.allSpans == [1, 2] && screen.selectedContacts == map[1 := 1, 2 := 2]
    ensures screen.text == ChipText([1, 2])
  {
    screen := new GroupCreateScreen();
    var first := screen.OnItemClick(1);
    var second := screen.OnItemClick(2);
    assert [1] + [2] == [1, 2];
  }

  /**
   * Users 1 and 2 selected, then the whole text erased in one edit: the sweep
   * drops chip 1 and passes over chip 2, so user 2 stays selected although
   * its chip has left the text.
   */
  method SelectTwoThenEraseAll() returns (screen: GroupCreateScreen)
    ensures fresh(screen)
    ensures screen.text == [] && screen.allSpans == [2]
    ensures 2 in screen.selectedContacts && screen.selectedContacts[2] == 2
  {
    screen := SelectTwo();
    TwoChipText();
    SweepPassesOverNeighbour();
    screen.AfterTextChanged([], 4, 0);
    assert screen.selectedContacts == map[1 := 1, 2 := 2] - {1};
  }

  /** After that edit, tapping user 2's row reaches the delete with a missing span. */
  method ErasedNeighbourBreaksDeselect() returns (outcome: ClickOutcome)
    ensures outcome == SpanMissing
  {
    var screen := SelectTwoThenEraseAll();
    outcome := screen.OnItemClick(2);
  }
}
