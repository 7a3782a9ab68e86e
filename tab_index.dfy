/**
 * The index arithmetic behind deleting a note. Notes are identified by their
 * position in the note list, so removing note `i` shifts every later note down
 * by one place, and every open tab that pointed past `i` must follow it.
 */
module TabIndex {

  import opened Wrappers

  /** Every entry is a valid position in a list of `n` elements. */
  predicate AllBelow(s: seq<nat>, n: nat) {
    forall j :: 0 <= j < |s| ==> s[j] < n
  }

  /** No entry appears twice. */
  predicate NoDups(s: seq<nat>) {
    forall j, k :: 0 <= j < k < |s| ==> s[j] != s[k]
  }

  /** `Vec::remove(i)` on a list: element `i` goes, the rest keep their order. */
  function RemoveAt<T>(s: seq<T>, i: nat): (r: seq<T>)
    requires i < |s|
    ensures |r| == |s| - 1
    ensures forall j :: 0 <= j < i ==> r[j] == s[j]
    ensures forall j :: i <= j < |r| ==> r[j] == s[j + 1]
  {
    s[..i] + s[i + 1..]
  }

  /** `tabs.retain(|&x| x != i)`: the entries other than `i`, in their order. */
  function Without(s: seq<nat>, i: nat): (r: seq<nat>)
    ensures |r| <= |s|
    decreases |s|
  {
    if s == [] then []
    else Without(s[..|s| - 1], i) + (if s[|s| - 1] == i then [] else [s[|s| - 1]])
  }

  /** When every entry is `i`, nothing survives the filter. */
  lemma {:induction false} NoneSurvive(s: seq<nat>, i: nat)
    requires forall x :: x in s ==> x == i
    ensures Without(s, i) == []
    decreases |s|
  {
    if s != [] {
      var p := s[..|s| - 1];
      assert s[|s| - 1] in s;
      forall x | x in p ensures x == i {
        var j :| 0 <= j < |p| && p[j] == x;
        assert s[j] in s;
      }
      NoneSurvive(p, i);
    }
  }

  /** Filtering distributes over concatenation, so it keeps the relative order of what survives. */
  lemma {:induction false} WithoutAppend(a: seq<nat>, b: seq<nat>, i: nat)
    ensures Without(a + b, i) == Without(a, i) + Without(b, i)
    decreases |b|
  {
    if b == [] {
      assert a + b == a;
    } else {
      var b' := b[..|b| - 1];
      assert (a + b)[..|a + b| - 1] == a + b';
      WithoutAppend(a, b', i);
    }
  }

  lemma {:induction false} WithoutMembers(s: seq<nat>, i: nat)
    ensures forall x :: x in Without(s, i) <==> x in s && x != i
    decreases |s|
  {
    if s != [] {
      var p := s[..|s| - 1];
      WithoutMembers(p, i);
      assert s == p + [s[|s| - 1]];
    }
  }

  lemma WithoutSkips(s: seq<nat>, i: nat)
    ensures forall j :: 0 <= j < |Without(s, i)| ==> Without(s, i)[j] != i
  {
    var w := Without(s, i);
    WithoutMembers(s, i);
    forall j | 0 <= j < |w| ensures w[j] != i {
      assert w[j] in w;
    }
  }

  lemma {:induction false} WithoutNoDups(s: seq<nat>, i: nat)
    requires NoDups(s)
    ensures NoDups(Without(s, i))
    decreases |s|
  {
    if s != [] {
      var p := s[..|s| - 1];
      var last := s[|s| - 1];
      WithoutNoDups(p, i);
      WithoutMembers(p, i);
      assert last !in p by {
        forall j | 0 <= j < |p| ensures p[j] != last {
          assert p[j] == s[j];
        }
      }
    }
  }

  /** Where a surviving note's position goes when note `i` is removed. */
  function Shift(t: nat, i: nat): (r: nat)
    ensures t < i ==> r == t
    ensures t > i ==> r + 1 == t
  {
    if t > i then t - 1 else t
  }

  /** The inverse of `Shift`: the old position of a note now at `t`. */
  function Unshift(t: nat, i: nat): (r: nat)
    ensures r != i && Shift(r, i) == t
    ensures t < i ==> r == t
    ensures t >= i ==> r == t + 1
  {
    if t >= i then t + 1 else t
  }

  /** `Shift` and `Unshift` are inverse bijections between the positions other than `i` and all positions. */
  lemma ShiftUnshift(t: nat, i: nat)
    ensures Shift(Unshift(t, i), i) == t
    ensures t != i ==> Unshift(Shift(t, i), i) == t
  {
  }

  /** Applies `Shift` to every entry (the `iter_mut` loop that decrements the larger tabs). */
  function ShiftAll(s: seq<nat>, i: nat): (r: seq<nat>)
    ensures |r| == |s|
    ensures forall j :: 0 <= j < |s| ==> r[j] == Shift(s[j], i)
  {
    seq(|s|, j requires 0 <= j < |s| => Shift(s[j], i))
  }

  /**
   * The `iter_mut` loop over the kept tabs: every entry past `i` is
   * decremented in place, the others are left alone.
   */
  method ShiftDown(kept: seq<nat>, i: nat) returns (tabs: seq<nat>)
    ensures tabs == ShiftAll(kept, i)
  {
    tabs := kept;
    var k := 0;
    while k < |tabs|
      invariant 0 <= k <= |tabs| == |kept|
      invariant forall j :: 0 <= j < k ==> tabs[j] == Shift(kept[j], i)
      invariant forall j :: k <= j < |tabs| ==> tabs[j] == kept[j]
    {
      if tabs[k] > i {
        tabs := tabs[k := tabs[k] - 1];
      }
      k := k + 1;
    }
  }

  /** The open tabs after note `i` is deleted: filtered, then shifted. */
  function Remap(tabs: seq<nat>, i: nat): (r: seq<nat>)
    ensures |r| == |Without(tabs, i)|
  {
    ShiftAll(Without(tabs, i), i)
  }

  /** Each remapped tab unshifts to the kept old tab at the same place. */
  lemma RemapUnshifts(tabs: seq<nat>, i: nat)
    ensures forall j :: 0 <= j < |Remap(tabs, i)| ==> Unshift(Remap(tabs, i)[j], i) == Without(tabs, i)[j]
  {
    WithoutSkips(tabs, i);
  }

  /** Deleting a valid position keeps the tabs valid for the shorter list and free of duplicates. */
  lemma RemapValid(tabs: seq<nat>, i: nat, n: nat)
    requires AllBelow(tabs, n) && NoDups(tabs) && i < n
    ensures AllBelow(Remap(tabs, i), n - 1)
    ensures NoDups(Remap(tabs, i))
  {
    var w := Without(tabs, i);
    WithoutMembers(tabs, i);
    WithoutNoDups(tabs, i);
    var r := Remap(tabs, i);
    forall j | 0 <= j < |r| ensures r[j] < n - 1 {
      assert w[j] in w;
    }
    forall j, k | 0 <= j < k < |r| ensures r[j] != r[k] {
      assert w[j] in w && w[k] in w;
    }
  }

  /** A tab that did not point at the deleted note survives, shifted. */
  lemma RemapKeeps(tabs: seq<nat>, i: nat, t: nat)
    requires t in tabs && t != i
    ensures Shift(t, i) in Remap(tabs, i)
  {
    var w := Without(tabs, i);
    WithoutMembers(tabs, i);
    var j :| 0 <= j < |w| && w[j] == t;
    assert Remap(tabs, i)[j] == Shift(t, i);
  }

  /** Every tab after the delete comes from a tab that did not point at the deleted note. */
  lemma RemapOrigin(tabs: seq<nat>, i: nat, t: nat)
    requires t in Remap(tabs, i)
    ensures Unshift(t, i) in tabs
  {
    var w := Without(tabs, i);
    var r := Remap(tabs, i);
    WithoutMembers(tabs, i);
    var j :| 0 <= j < |r| && r[j] == t;
    assert w[j] in w;
    ShiftUnshift(w[j], i);
  }

  /**
   * Both directions of "a tab survives exactly when it did not point at the
   * deleted note": every old tab other than `i` reappears shifted, and every new
   * tab comes from an old tab other than `i`.
   */
  lemma RemapMembers(tabs: seq<nat>, i: nat, t: nat)
    ensures t in tabs && t != i <==> Shift(t, i) in Remap(tabs, i) && t != i
    ensures t in Remap(tabs, i) <==> Unshift(t, i) in tabs
  {
    if t in tabs && t != i {
      RemapKeeps(tabs, i, t);
    }
    if Shift(t, i) in Remap(tabs, i) && t != i {
      RemapOrigin(tabs, i, Shift(t, i));
      ShiftUnshift(t, i);
    }
    if t in Remap(tabs, i) {
      RemapOrigin(tabs, i, t);
    }
    if Unshift(t, i) in tabs {
      RemapKeeps(tabs, i, Unshift(t, i));
      ShiftUnshift(t, i);
    }
  }

  /**
   * Refinement: the note a surviving tab designates in the shortened list is the
   * note its old index designated in the original list.
   */
  lemma RemapRefines<T>(notes: seq<T>, tabs: seq<nat>, i: nat)
    requires AllBelow(tabs, |notes|) && i < |notes|
    ensures AllBelow(Remap(tabs, i), |notes| - 1)
    ensures forall j :: 0 <= j < |Remap(tabs, i)| ==>
              RemoveAt(notes, i)[Remap(tabs, i)[j]] == notes[Without(tabs, i)[j]]
  {
    var w := Without(tabs, i);
    WithoutMembers(tabs, i);
    forall j | 0 <= j < |w| ensures w[j] < |notes| && w[j] != i {
      assert w[j] in w;
    }
  }

  /** The last tab of a list of tabs, if any (`open_tabs.last().copied()`). */
  function LastTab(tabs: seq<nat>): (r: Option<nat>)
    ensures r.None? <==> tabs == []
    ensures r.Some? ==> r.value in tabs && r.value == tabs[|tabs| - 1]
  {
    if tabs == [] then None else Some(tabs[|tabs| - 1])
  }

  /**
   * The repair of the current tab after note `i` is deleted, given the tabs
   * already remapped and the number of notes left: the last tab if the deleted
   * note was current, one lower if the current note came after it, and nothing
   * once no note is left.
   */
  function RepairCurrent(cur: Option<nat>, i: nat, newTabs: seq<nat>, notesLeft: nat): (r: Option<nat>)
    ensures notesLeft == 0 || cur.None? ==> r.None?
    ensures cur.Some? && cur.value < i && notesLeft > 0 ==> r == cur
    ensures cur == Some(i) && notesLeft > 0 ==> r == LastTab(newTabs)
  {
    var c :=
      match cur
      case None => None
      case Some(current) =>
        if current == i then LastTab(newTabs)
        else if current > i then Some(current - 1)
        else cur;
    if notesLeft == 0 then None else c
  }

  /**
   * Under the tab invariant, the repaired current tab is absent or an open tab,
   * it designates the same note as before unless that note was deleted, and the
   * final check for an empty note list never changes the outcome.
   */
  lemma RepairCurrentSound(tabs: seq<nat>, cur: Option<nat>, i: nat, n: nat)
    requires AllBelow(tabs, n) && NoDups(tabs) && i < n
    requires cur.Some? ==> cur.value in tabs
    ensures var c := RepairCurrent(cur, i, Remap(tabs, i), n - 1);
            && (c.Some? ==> c.value in Remap(tabs, i))
            && (cur.None? ==> c.None?)
            && (cur == Some(i) ==> c == LastTab(Remap(tabs, i)))
            && (cur.Some? && cur.value != i ==> c == Some(Shift(cur.value, i)))
            && (n == 1 ==> c.None? && Remap(tabs, i) == [])
  {
    var r := Remap(tabs, i);
    RemapValid(tabs, i, n);
    if cur.Some? && cur.value != i {
      RemapKeeps(tabs, i, cur.value);
    }
    if n == 1 {
      assert forall x :: x in tabs ==> x == i;
      NoneSurvive(tabs, i);
      if cur.Some? {
        assert cur.value < 1 by {
          var j :| 0 <= j < |tabs| && tabs[j] == cur.value;
        }
      }
    }
  }

  /**
   * Everything deleting note `i` promises about the note list, the tabs and the
   * current tab, collected from the lemmas above.
   */
  lemma DeleteSound<T>(notes: seq<T>, tabs: seq<nat>, cur: Option<nat>, i: nat)
    requires AllBelow(tabs, |notes|) && NoDups(tabs) && i < |notes|
    requires cur.Some? ==> cur.value in tabs
    ensures var r := Remap(tabs, i);
            var c := RepairCurrent(cur, i, r, |notes| - 1);
            && AllBelow(r, |notes| - 1) && NoDups(r)
            && (c.Some? ==> c.value in r)
            && (forall j :: 0 <= j < |r| ==> RemoveAt(notes, i)[r[j]] == notes[Without(tabs, i)[j]])
            && (cur.None? ==> c.None?)
            && (cur == Some(i) ==> c == LastTab(r))
            && (cur.Some? && cur.value != i ==> c == Some(Shift(cur.value, i)))
            && (|notes| == 1 ==> c.None? && r == [])
  {
    RemapValid(tabs, i, |notes|);
    RemapRefines(notes, tabs, i);
    RepairCurrentSound(tabs, cur, i, |notes|);
  }
}
