/**
 * The in-memory state of the note application: the list of notes, the open
 * tabs (positions in that list, in the order they were opened) and the current
 * tab. User clicks become method calls that take the clicked position.
 */
module Notes {

  import opened Wrappers
  import opened Text
  import opened TabIndex

  /** A location in the file system: the notes directory joined with a file name. */
  datatype FilePath = FilePath(dir: string, fileName: string)

  datatype Note = Note(title: string, content: string, path: FilePath)

  /**
   * The sidebar filter: a note is listed when the lowercased query is empty or
   * occurs in the lowercased title or the lowercased content.
   */
  function Matches(query: string, note: Note): (r: bool)
    ensures query == [] ==> r
    ensures query != [] ==>
              (r <==> ((exists k: nat :: OccursAt(Lower(note.title), Lower(query), k))
                       || (exists k: nat :: OccursAt(Lower(note.content), Lower(query), k))))
  {
    var q := Lower(query);
    q == [] || Contains(Lower(note.title), q) || Contains(Lower(note.content), q)
  }

  /** The filter ignores the case of the query. */
  lemma MatchesIgnoresQueryCase(query: string, note: Note)
    ensures Matches(Lower(query), note) == Matches(query, note)
  {
    LowerIdempotent(query);
  }

  /** A note whose title or content holds the query verbatim is always listed. */
  lemma MatchesVerbatim(query: string, note: Note)
    requires Contains(note.title, query) || Contains(note.content, query)
    ensures Matches(query, note)
  {
    if Contains(note.title, query) {
      ContainsLower(note.title, query);
    } else {
      ContainsLower(note.content, query);
    }
  }

  /**
   * The note the "+ New Note" button makes when there are `count` notes: file
   * `Note_<count + 1>.md` in the notes directory, title without the `.md`, no content.
   */
  function NewNote(notesDir: string, count: nat): (n: Note)
    ensures n.title == "Note_" + Decimal(count + 1)
    ensures n.path == FilePath(notesDir, n.title + ".md")
    ensures n.content == []
  {
    var fileName := "Note_" + Decimal(count + 1) + ".md";
    var t := "Note_" + Decimal(count + 1);
    assert !EndsWith(t, ".md") by {
      assert t[|t| - 1] == DigitChar((count + 1) % 10);
    }
    TrimEndMatchesOfAppend(t, ".md");
    Note(TrimEndMatches(fileName, ".md"), "", FilePath(notesDir, fileName))
  }

  /** Different note counts give different titles. */
  lemma NewNoteTitlesDiffer(notesDir: string, m: nat, n: nat)
    requires m != n
    ensures NewNote(notesDir, m).title != NewNote(notesDir, n).title
  {
    var a, b := Decimal(m + 1), Decimal(n + 1);
    if "Note_" + a == "Note_" + b {
      assert a == ("Note_" + a)[5..] == ("Note_" + b)[5..] == b;
      DecimalInjective(m + 1, n + 1);
    }
  }

  /**
   * The title depends only on how many notes there are. After notes were
   * created one by one as `Note_1` .. `Note_n`, deleting any of them but the
   * last and creating a note again gives the path of the last one, which is
   * still in the list.
   */
  lemma NewNoteCanReusePath(notesDir: string, n: nat, j: nat)
    requires j + 1 < n
    ensures var created := seq(n, k requires 0 <= k < n => NewNote(notesDir, k));
            var after := RemoveAt(created, j);
            NewNote(notesDir, |after|).path == after[|after| - 1].path
  {
    var created := seq(n, k requires 0 <= k < n => NewNote(notesDir, k));
    var after := RemoveAt(created, j);
    assert after[|after| - 1] == created[n - 1];
  }

  /** One tab as the tab bar shows it: the note's title, and whether it is the current tab. */
  datatype TabLabel = TabLabel(title: string, selected: bool)

  class AppState {
    var notes: seq<Note>
    var openTabs: seq<nat>
    var currentTab: Option<nat>
    var searchQuery: string
    const notesDir: string

    /**
     * The consistency of the tab state: each tab is a valid note position (the
     * tab bar indexes `notes` with it), no note is open twice, and the current
     * tab, if any, is one of the open tabs.
     */
    ghost predicate Valid()
      reads this
    {
      && AllBelow(openTabs, |notes|)
      && NoDups(openTabs)
      && (currentTab.Some? ==> currentTab.value in openTabs)
    }

    /** Start-up: the notes found in the notes directory, no tabs, no current tab, empty query. */
    constructor (notesDir: string, loaded: seq<Note>)
      ensures Valid()
      ensures this.notesDir == notesDir && notes == loaded
      ensures openTabs == [] && currentTab == None && searchQuery == []
    {
      this.notesDir := notesDir;
      notes := loaded;
      openTabs := [];
      currentTab := None;
      searchQuery := [];
    }

    /** The search bar's text changes. */
    method SetSearchQuery(query: string)
      modifies this
      ensures searchQuery == query
      ensures notes == old(notes) && openTabs == old(openTabs) && currentTab == old(currentTab)
    {
      searchQuery := query;
    }

    /** "+ New Note": one note appended at the end; the tabs are untouched. */
    method CreateNote()
      requires Valid()
      modifies this
      ensures Valid()
      ensures notes == old(notes) + [NewNote(notesDir, |old(notes)|)]
      ensures openTabs == old(openTabs) && currentTab == old(currentTab)
      ensures searchQuery == old(searchQuery)
    {
      var note := NewNote(notesDir, |notes|);
      notes := notes + [note];
    }

    /**
     * The positions of the notes the sidebar lists for the current query, in
     * list order. Only these rows have buttons, so only they can be opened or
     * deleted.
     */
    method VisibleNotes() returns (shown: seq<nat>)
      ensures AllBelow(shown, |notes|)
      ensures forall j, k :: 0 <= j < k < |shown| ==> shown[j] < shown[k]
      ensures forall i :: 0 <= i < |notes| ==> (i in shown <==> Matches(searchQuery, notes[i]))
    {
      shown := [];
      var i := 0;
      while i < |notes|
        invariant 0 <= i <= |notes|
        invariant AllBelow(shown, i)
        invariant forall j, k :: 0 <= j < k < |shown| ==> shown[j] < shown[k]
        invariant forall x :: 0 <= x < i ==> (x in shown <==> Matches(searchQuery, notes[x]))
      {
        if Matches(searchQuery, notes[i]) {
          shown := shown + [i];
        }
        i := i + 1;
      }
    }

    /**
     * Clicking note `i` in the sidebar: the note is added as a tab unless it is
     * already open, and it becomes the current tab.
     */
    method OpenNote(i: nat)
      requires Valid() && i < |notes|
      modifies this
      ensures Valid()
      ensures openTabs == if i in old(openTabs) then old(openTabs) else old(openTabs) + [i]
      ensures currentTab == Some(i)
      ensures notes == old(notes) && searchQuery == old(searchQuery)
    {
      if i !in openTabs {
        openTabs := openTabs + [i];
      }
      currentTab := Some(i);
    }

    /** The tab bar: one label per open tab, in tab order, with the current tab marked. */
    method TabStrip() returns (labels: seq<TabLabel>)
      requires Valid()
      ensures |labels| == |openTabs|
      ensures forall k :: 0 <= k < |labels| ==>
                labels[k].title == notes[openTabs[k]].title
                && labels[k].selected == (currentTab == Some(openTabs[k]))
      ensures forall j, k :: 0 <= j < k < |labels| ==> !(labels[j].selected && labels[k].selected)
      ensures currentTab.Some? <==> exists k :: 0 <= k < |labels| && labels[k].selected
    {
      labels := [];
      var k := 0;
      while k < |openTabs|
        invariant 0 <= k <= |openTabs|
        invariant |labels| == k
        invariant forall j :: 0 <= j < k ==>
                    labels[j].title == notes[openTabs[j]].title
                    && labels[j].selected == (currentTab == Some(openTabs[j]))
      {
        var tabIdx := openTabs[k];
        var note := notes[tabIdx];
        labels := labels + [TabLabel(note.title, currentTab == Some(tabIdx))];
        k := k + 1;
      }
    }

    /** Clicking a tab in the tab bar makes its note the current one. */
    method SelectTab(tabIdx: nat)
      requires Valid() && tabIdx in openTabs
      modifies this
      ensures Valid()
      ensures currentTab == Some(tabIdx)
      ensures notes == old(notes) && openTabs == old(openTabs) && searchQuery == old(searchQuery)
    {
      currentTab := Some(tabIdx);
    }

    /**
     * Typing in the editor replaces the content of the current note. Its file
     * is rewritten as well; that write is not modelled.
     */
    method EditCurrentNote(text: string)
      requires Valid()
      modifies this
      ensures Valid()
      ensures currentTab == old(currentTab) && openTabs == old(openTabs)
      ensures searchQuery == old(searchQuery)
      ensures old(currentTab).None? ==> notes == old(notes)
      ensures old(currentTab).Some? ==>
                var idx := old(currentTab).value;
                idx < |old(notes)| && notes == old(notes)[idx := old(notes)[idx].(content := text)]
    {
      if currentTab.Some? {
        var idx := currentTab.value;
        if idx < |notes| {
          notes := notes[idx := notes[idx].(content := text)];
        }
      }
    }

    /**
     * The trash button of note `i`: the note is removed, tabs pointing at it are
     * closed, tabs pointing past it are moved down by one, and the current tab
     * is repaired.
     */
    method DeleteNote(i: nat)
      requires Valid() && i < |notes|
      modifies this
      ensures Valid()
      ensures notes == RemoveAt(old(notes), i)
      ensures openTabs == Remap(old(openTabs), i)
      ensures searchQuery == old(searchQuery)
      // every surviving tab shows the same note as before
      ensures forall j :: 0 <= j < |openTabs| ==>
                notes[openTabs[j]] == old(notes)[Without(old(openTabs), i)[j]]
      // repair of the current tab
      ensures old(currentTab).None? ==> currentTab.None?
      ensures old(currentTab) == Some(i) ==> currentTab == LastTab(openTabs)
      ensures old(currentTab).Some? && old(currentTab).value != i ==>
                currentTab == Some(Shift(old(currentTab).value, i))
      ensures currentTab == RepairCurrent(old(currentTab), i, openTabs, |notes|)
      ensures notes == [] ==> currentTab.None? && openTabs == []
    {
      // the file of the note is removed as well; that is not modelled
      var remaining := notes[..i] + notes[i + 1..];
      assert remaining == RemoveAt(notes, i);

      // `retain`: keep the tabs other than `i`
      var tabs := Without(openTabs, i);

      // move the tabs past `i` down by one
      tabs := ShiftDown(tabs, i);
      assert tabs == Remap(openTabs, i);

      // repair the current tab
      var current := currentTab;
      if current.Some? {
        var c := current.value;
        if c == i {
          current := LastTab(tabs);
        } else if c > i {
          current := Some(c - 1);
        }
      }
      if |remaining| == 0 {
        current := None;
      }

      DeleteSound(notes, openTabs, currentTab, i);
      assert current == RepairCurrent(currentTab, i, tabs, |remaining|);
      notes, openTabs, currentTab := remaining, tabs, current;
    }
  }
}
