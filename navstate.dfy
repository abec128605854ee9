/** The two small pieces of navigation-bar state that `navigation.js` keeps in the page: which
    dropdown menus carry the `show` class, and which sidebar sections are collapsed together
    with the list of collapsed section ids kept under `sidebarCollapsedSections`. */
module NavState {
  import opened Grouping

  // ----- dropdowns -----

  /** How many dropdowns are open. */
  function OpenCount(s: seq<bool>): (n: nat)
    ensures n <= |s|
    ensures n == 0 <==> forall i | 0 <= i < |s| :: !s[i]
  {
    if s == [] then 0 else (if s[0] then 1 else 0) + OpenCount(s[1..])
  }

  /** The open flags after `toggleDropdown` on dropdown `d`: every dropdown is closed first, then
      `d` is opened again if it was closed before. */
  function Toggled(s: seq<bool>, d: nat): (r: seq<bool>)
    requires d < |s|
    ensures |r| == |s|
  {
    seq(|s|, i requires 0 <= i < |s| => i == d && !s[d])
  }

  /** After a toggle at most one dropdown is open: exactly one (the toggled one) when it was
      closed, none when it was open. */
  lemma {:induction false} ToggledOpenCount(s: seq<bool>, d: nat)
    requires d < |s|
    ensures OpenCount(Toggled(s, d)) == if s[d] then 0 else 1
    ensures !s[d] ==> Toggled(s, d)[d]
  {
    OnlyOneSet(Toggled(s, d), d);
  }

  /** A flag sequence whose only possible `true` is at `d` has `d`'s flag as its count. */
  lemma {:induction false} OnlyOneSet(s: seq<bool>, d: nat)
    requires d < |s|
    requires forall i | 0 <= i < |s| && i != d :: !s[i]
    ensures OpenCount(s) == if s[d] then 1 else 0
  {
    if d > 0 {
      OnlyOneSet(s[1..], d - 1);
    } else {
      assert forall i | 0 <= i < |s[1..]| :: !s[1..][i] by {
        forall i | 0 <= i < |s[1..]| ensures !s[1..][i] {
          assert s[1..][i] == s[i + 1];
        }
      }
    }
  }

  /** Toggling the same dropdown twice leaves it as it was and every other dropdown closed. */
  lemma ToggleTwice(s: seq<bool>, d: nat)
    requires d < |s|
    ensures Toggled(Toggled(s, d), d)[d] == s[d]
    ensures OpenCount(Toggled(Toggled(s, d), d)) == if s[d] then 1 else 0
  {
    ToggledOpenCount(Toggled(s, d), d);
  }

  /** The `.dropdown` elements of the page and their `show` class. */
  class Dropdowns {
    const shown: array<bool>

    constructor (n: nat)
      ensures shown.Length == n && fresh(shown)
      ensures forall i | 0 <= i < n :: !shown[i]
    {
      shown := new bool[n](_ => false);
    }

    /** `closeAllDropdowns`: the `show` class is removed from every dropdown. */
    method CloseAllDropdowns()
      modifies shown
      ensures forall i | 0 <= i < shown.Length :: !shown[i]
    {
      for i := 0 to shown.Length
        invariant forall k | 0 <= k < i :: !shown[k]
      {
        shown[i] := false;
      }
    }

    /** `toggleDropdown`: remember whether `d` was open, close everything, and reopen `d` only
        if it had been closed. */
    method ToggleDropdown(d: nat)
      requires d < shown.Length
      modifies shown
      ensures shown[..] == Toggled(old(shown[..]), d)
      ensures OpenCount(shown[..]) <= 1
    {
      var isOpen := shown[d];
      CloseAllDropdowns();
      if !isOpen {
        shown[d] := true;
      }
      ToggledOpenCount(old(shown[..]), d);
    }
  }

  // ----- collapsed sidebar sections -----

  /** `Array.prototype.indexOf`: the first position of `x`, or -1. */
  function IndexOf<T(==)>(s: seq<T>, x: T): (r: int)
    ensures -1 <= r < |s|
    ensures r == -1 <==> x !in s
    ensures r >= 0 ==> s[r] == x && x !in s[..r]
  {
    if s == [] then -1
    else if s[0] == x then 0
    else
      var r := IndexOf(s[1..], x);
      assert r >= 0 ==> s[..r + 1] == [s[0]] + s[1..][..r];
      if r == -1 then -1 else r + 1
  }

  /** The stored id list after the section `id` has been toggled to `nowCollapsed`: pushed when it
      becomes collapsed and is missing, its first occurrence spliced out when it expands. */
  function StoredAfter(stored: seq<string>, id: string, nowCollapsed: bool): (r: seq<string>)
  {
    var index := IndexOf(stored, id);
    if nowCollapsed then (if index == -1 then stored + [id] else stored)
    else if index > -1 then stored[..index] + stored[index + 1..]
    else stored
  }

  /** The ids other than `id` in order. */
  function Others(s: seq<string>, id: string): (r: seq<string>)
    ensures id !in r
    ensures forall x | x in r :: x in s
  {
    if s == [] then [] else (if s[0] == id then [] else [s[0]]) + Others(s[1..], id)
  }

  lemma {:induction false} OthersAppend(s: seq<string>, t: seq<string>, id: string)
    ensures Others(s + t, id) == Others(s, id) + Others(t, id)
  {
    if s != [] {
      assert (s + t)[0] == s[0] && (s + t)[1..] == s[1..] + t;
      OthersAppend(s[1..], t, id);
      var h := if s[0] == id then [] else [s[0]];
      assert h + (Others(s[1..], id) + Others(t, id)) == (h + Others(s[1..], id)) + Others(t, id);
    } else {
      assert s + t == t;
    }
  }

  /** Toggling never creates a duplicate: a duplicate-free list stays duplicate-free, the id is
      listed afterwards exactly when it is collapsed. */
  lemma StoredAfterSpec(stored: seq<string>, id: string, nowCollapsed: bool)
    requires Distinct(stored)
    ensures Distinct(StoredAfter(stored, id, nowCollapsed))
    ensures id in StoredAfter(stored, id, nowCollapsed) <==> nowCollapsed
  {
    var index := IndexOf(stored, id);
    if nowCollapsed && index == -1 {
      PushDistinct(stored, id);
    } else if !nowCollapsed && index > -1 {
      SpliceDistinct(stored, index);
    }
  }

  /** Pushing a missing id keeps the list duplicate-free. */
  lemma PushDistinct(stored: seq<string>, id: string)
    requires Distinct(stored) && id !in stored
    ensures Distinct(stored + [id])
  {
    var r := stored + [id];
    forall i, j | 0 <= i < j < |r| ensures r[i] != r[j] {
      if j == |stored| {
        assert r[i] == stored[i];
      } else {
        assert r[i] == stored[i] && r[j] == stored[j];
      }
    }
  }

  /** Splicing an occurrence out of a duplicate-free list leaves a duplicate-free list without
      that value. */
  lemma SpliceDistinct(stored: seq<string>, index: nat)
    requires Distinct(stored) && index < |stored|
    ensures Distinct(stored[..index] + stored[index + 1..])
    ensures stored[index] !in stored[..index] + stored[index + 1..]
  {
    var r := stored[..index] + stored[index + 1..];
    assert forall k | 0 <= k < |r| :: r[k] == stored[if k < index then k else k + 1];
    forall i, j | 0 <= i < j < |r| ensures r[i] != r[j] {
      var i' := if i < index then i else i + 1;
      var j' := if j < index then j else j + 1;
      assert r[i] == stored[i'] && r[j] == stored[j'];
    }
    forall k | 0 <= k < |r| ensures r[k] != stored[index] {
      var k' := if k < index then k else k + 1;
      assert r[k] == stored[k'];
    }
  }

  /** The sidebar sections that exist on the page, which of them carry the `collapsed` class, and
      the id list read from and written back to local storage. */
  class Sidebar {
    const sections: set<string>
    var collapsed: set<string>
    var stored: seq<string>

    constructor (sections: set<string>, stored: seq<string>)
      ensures this.sections == sections && this.stored == stored && collapsed == {}
    {
      this.sections := sections;
      this.stored := stored;
      collapsed := {};
    }

    /** `toggleSidebarSection`: a missing section changes nothing; otherwise the section's
        `collapsed` class flips and the stored list follows it. */
    method ToggleSidebarSection(id: string)
      modifies this
      ensures id !in sections ==> collapsed == old(collapsed) && stored == old(stored)
      ensures id in sections ==>
                collapsed == (if id in old(collapsed) then old(collapsed) - {id} else old(collapsed) + {id})
                && stored == StoredAfter(old(stored), id, id in collapsed)
      ensures Distinct(old(stored)) ==> Distinct(stored)
      ensures Distinct(old(stored)) && id in sections ==> (id in stored <==> id in collapsed)
      ensures Others(stored, id) == Others(old(stored), id)
    {
      if id in sections {
        collapsed := if id in collapsed then collapsed - {id} else collapsed + {id};
        var index := IndexOf(stored, id);
        if id in collapsed {
          if index == -1 {
            stored := stored + [id];
          }
        } else {
          if index > -1 {
            stored := stored[..index] + stored[index + 1..];
          }
        }
        if Distinct(old(stored)) {
          StoredAfterSpec(old(stored), id, id in collapsed);
        }
        OthersUnchanged(old(stored), id, id in collapsed);
      }
    }

    /** `restoreSidebarCollapsedState`: every stored id whose section exists gets the
        `collapsed` class. */
    method RestoreSidebarCollapsedState()
      modifies this
      ensures stored == old(stored)
      ensures collapsed == old(collapsed) + (set x | x in stored && x in sections)
    {
      for i := 0 to |stored|
        invariant stored == old(stored)
        invariant collapsed == old(collapsed) + (set x | x in stored[..i] && x in sections)
      {
        var id := stored[i];
        if id in sections {
          collapsed := collapsed + {id};
        }
        assert stored[..i + 1] == stored[..i] + [id];
      }
      assert stored[..|stored|] == stored;
    }
  }

  /** Whatever the list, even one with duplicates, toggling keeps the other ids and their order. */
  lemma OthersUnchanged(stored: seq<string>, id: string, nowCollapsed: bool)
    ensures Others(StoredAfter(stored, id, nowCollapsed), id) == Others(stored, id)
  {
    var index := IndexOf(stored, id);
    if nowCollapsed && index == -1 {
      OthersAppend(stored, [id], id);
      assert Others([id], id) == [];
    } else if !nowCollapsed && index > -1 {
      OthersSplice(stored, index, id);
    }
  }

  /** Splicing out one occurrence of `id` leaves the other ids as they were. */
  lemma OthersSplice(stored: seq<string>, index: nat, id: string)
    requires index < |stored| && stored[index] == id
    ensures Others(stored[..index] + stored[index + 1..], id) == Others(stored, id)
  {
    var a, b := stored[..index], stored[index + 1..];
    calc {
      Others(stored, id);
      { assert stored == a + ([id] + b); OthersAppend(a, [id] + b, id); }
      Others(a, id) + Others([id] + b, id);
      { assert ([id] + b)[1..] == b; }
      Others(a, id) + Others(b, id);
      { OthersAppend(a, b, id); }
      Others(a + b, id);
    }
  }
}
