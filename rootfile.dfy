/**
 * The object tree of an opened ROOT file and its flat menu listing: the
 * pre-order display list, the LISTED / DIR_OPEN state bits toggled down the
 * tree, and the n-th visible entry. The ROOT objects themselves are
 * abstracted to their name, title, class name and (for trees) entry count.
 */
module RootFile {
  import opened CppLib

  datatype NodeType = Directory | TTree | TLeaf | Hist | Unknown

  /** The OpenState bits. */
  const DirOpen: bv8 := 2
  const Listed: bv8 := 1

  datatype Node = Node(kind: NodeType, name: string, title: string, className: string, entries: int,
                       openState: bv8, showInSearch: bool, children: seq<Node>)

  /** Directories and trees hold children and can be opened. */
  predicate IsContainer(n: Node) { n.kind == Directory || n.kind == TTree }

  predicate IsListed(n: Node) { (n.openState & Listed) != 0 }

  predicate IsOpen(n: Node) { (n.openState & DirOpen) != 0 }

  /** Only directories and trees have children (leaves, histograms and other objects have none). */
  predicate WellFormed(n: Node)
    decreases n
  {
    (!IsContainer(n) ==> n.children == []) &&
    forall k :: 0 <= k < |n.children| ==> WellFormed(n.children[k])
  }

  /** The number of nodes in a tree. */
  function Size(n: Node): (s: nat)
    ensures s >= 1
    decreases n, 1
  {
    1 + SizeAll(n.children)
  }

  function SizeAll(cs: seq<Node>): (s: nat)
    ensures forall k :: 0 <= k < |cs| ==> Size(cs[k]) <= s
    decreases cs, 0
  {
    if cs == [] then 0
    else
      var rest := SizeAll(cs[1..]);
      assert forall k :: 1 <= k < |cs| ==> cs[k] == cs[1..][k - 1];
      Size(cs[0]) + rest
  }

  // ---------------------------------------------------------------------
  // recurseOpen / toggleOpenOnClick
  // ---------------------------------------------------------------------

  /** LISTED set when opening, toggled when closing. */
  function ListedAfter(state: bv8, open: bool): (r: bv8)
    ensures (r & DirOpen) == (state & DirOpen)
    ensures open ==> (r & Listed) != 0
    ensures !open ==> ((r & Listed) != 0 <==> (state & Listed) == 0)
  {
    if open then state | Listed else state ^ Listed
  }

  /** One child as recurseOpen leaves it: its LISTED bit updated, and its own children too when it is an open container. */
  function Reopen(c: Node, open: bool): (r: Node)
    ensures r.kind == c.kind && r.name == c.name && r.title == c.title && r.className == c.className
    ensures r.entries == c.entries && r.showInSearch == c.showInSearch
    ensures |r.children| == |c.children| && Size(r) == Size(c)
    ensures IsOpen(r) == IsOpen(c)
    decreases c, 1
  {
    var state := ListedAfter(c.openState, open);
    if IsContainer(c) && (state & DirOpen) != 0 then
      c.(openState := state, children := RecursedChildren(c.children, open))
    else c.(openState := state)
  }

  /** recurseOpen on a node with these children. */
  function RecursedChildren(cs: seq<Node>, open: bool): (r: seq<Node>)
    ensures |r| == |cs| && SizeAll(r) == SizeAll(cs)
    ensures forall k :: 0 <= k < |cs| ==> r[k] == Reopen(cs[k], open)
    decreases cs, 0
  {
    if cs == [] then []
    else
      var rest := RecursedChildren(cs[1..], open);
      assert forall k :: 1 <= k < |cs| ==> cs[k] == cs[1..][k - 1];
      [Reopen(cs[0], open)] + rest
  }

  /** toggleOpenOnClick: a container flips DIR_OPEN and passes the new state down; anything else is left alone. */
  function Toggled(n: Node): (r: Node)
    ensures Size(r) == Size(n)
  {
    if IsContainer(n) then
      var state := n.openState ^ DirOpen;
      n.(openState := state, children := RecursedChildren(n.children, (state & DirOpen) != 0))
    else n
  }

  /** The loop of recurseOpen over the children. */
  method RecurseOpen(cs: seq<Node>, open: bool) returns (r: seq<Node>)
    ensures r == RecursedChildren(cs, open)
    decreases cs, 0
  {
    r := cs;
    var i := 0;
    while i < |r|
      invariant 0 <= i <= |r| == |cs|
      invariant forall j :: 0 <= j < i ==> r[j] == Reopen(cs[j], open)
      invariant forall j :: i <= j < |r| ==> r[j] == cs[j]
    {
      var child := ReopenChild(r[i], open);
      r := r[i := child];
      i := i + 1;
    }
  }

  /** One pass of that loop: the child's LISTED bit, then its own children if it is an open container. */
  method ReopenChild(c: Node, open: bool) returns (child: Node)
    ensures child == Reopen(c, open)
    decreases c, 1
  {
    var state := c.openState;
    if open {
      state := state | Listed;
    } else {
      state := state ^ Listed;
    }
    if IsContainer(c) && (state & DirOpen) != 0 {
      var grandchildren := RecurseOpen(c.children, open);
      child := c.(openState := state, children := grandchildren);
    } else {
      child := c.(openState := state);
    }
  }

  /** toggleOpenOnClick on a node. */
  method ToggleOpenOnClick(n: Node) returns (r: Node)
    ensures r == Toggled(n)
  {
    r := n;
    if IsContainer(n) {
      r := r.(openState := r.openState ^ DirOpen);
      var children := RecurseOpen(n.children, (r.openState & DirOpen) != 0);
      r := r.(children := children);
    }
  }

  /** A child that is listed, with everything below it listed if it is an open container. */
  predicate ListedChild(c: Node)
    decreases c, 1
  {
    IsListed(c) && (IsContainer(c) && IsOpen(c) ==> AllListedBelow(c))
  }

  /** Every child listed, and the same below every open container child. */
  predicate AllListedBelow(n: Node)
    decreases n, 0
  {
    forall k :: 0 <= k < |n.children| ==> ListedChild(n.children[k])
  }

  /** A child that is not listed, with nothing below it listed if it is an open container. */
  predicate HiddenChild(c: Node)
    decreases c, 1
  {
    !IsListed(c) && (IsContainer(c) && IsOpen(c) ==> NoneListedBelow(c))
  }

  /** No child listed, and the same below every open container child. */
  predicate NoneListedBelow(n: Node)
    decreases n, 0
  {
    forall k :: 0 <= k < |n.children| ==> HiddenChild(n.children[k])
  }

  lemma {:induction false} OpeningListsAll(cs: seq<Node>)
    ensures forall k :: 0 <= k < |cs| ==> ListedChild(RecursedChildren(cs, true)[k])
    decreases cs
  {
    var r := RecursedChildren(cs, true);
    forall k | 0 <= k < |cs| ensures ListedChild(r[k]) {
      assert r[k] == Reopen(cs[k], true);
      if IsContainer(r[k]) && IsOpen(r[k]) {
        OpeningListsAll(cs[k].children);
        assert r[k].children == RecursedChildren(cs[k].children, true);
      }
    }
  }

  lemma {:induction false} ClosingUnlistsAll(cs: seq<Node>)
    requires forall k :: 0 <= k < |cs| ==> ListedChild(cs[k])
    ensures forall k :: 0 <= k < |cs| ==> HiddenChild(RecursedChildren(cs, false)[k])
    decreases cs
  {
    var r := RecursedChildren(cs, false);
    forall k | 0 <= k < |cs| ensures HiddenChild(r[k]) {
      assert r[k] == Reopen(cs[k], false);
      assert ListedChild(cs[k]);
      if IsContainer(r[k]) && IsOpen(r[k]) {
        assert IsOpen(cs[k]) && AllListedBelow(cs[k]);
        ClosingUnlistsAll(cs[k].children);
        assert r[k].children == RecursedChildren(cs[k].children, false);
      }
    }
  }

  /**
   * A click on a container flips its DIR_OPEN bit and keeps its own LISTED
   * bit; opening lists every child and everything below the open containers
   * among them; closing a consistently listed container unlists all of it.
   * A click on anything else changes nothing.
   */
  lemma ToggleOpenShows(n: Node)
    ensures !IsContainer(n) ==> Toggled(n) == n
    ensures IsContainer(n) ==> IsOpen(Toggled(n)) == !IsOpen(n) && IsListed(Toggled(n)) == IsListed(n)
    ensures IsContainer(n) && !IsOpen(n) ==> AllListedBelow(Toggled(n))
    ensures IsContainer(n) && IsOpen(n) && AllListedBelow(n) ==> NoneListedBelow(Toggled(n))
  {
    if IsContainer(n) {
      if !IsOpen(n) {
        OpeningListsAll(n.children);
      } else if AllListedBelow(n) {
        ClosingUnlistsAll(n.children);
      }
    }
  }

  /** Opening then closing a closed container hides everything below it again. */
  lemma OpenThenCloseHides(n: Node)
    requires IsContainer(n) && !IsOpen(n)
    ensures var twice := Toggled(Toggled(n));
      !IsOpen(twice) && IsListed(twice) == IsListed(n) && NoneListedBelow(twice)
  {
    ToggleOpenShows(n);
    ToggleOpenShows(Toggled(n));
  }

  // ---------------------------------------------------------------------
  // openObviousDirectory
  // ---------------------------------------------------------------------

  function ContainerCount(cs: seq<Node>): (count: nat)
    ensures count <= |cs|
  {
    if cs == [] then 0 else ContainerCount(cs[..|cs| - 1]) + (if IsContainer(cs[|cs| - 1]) then 1 else 0)
  }

  /** The index of the last container child. */
  function LastContainer(cs: seq<Node>): (k: nat)
    requires ContainerCount(cs) >= 1
    ensures k < |cs| && IsContainer(cs[k])
    ensures forall j :: k < j < |cs| ==> !IsContainer(cs[j])
  {
    if IsContainer(cs[|cs| - 1]) then |cs| - 1 else LastContainer(cs[..|cs| - 1])
  }

  /** openObviousDirectory: while a node has exactly one container child, open it and continue there. */
  function OpenObvious(n: Node): (r: Node)
    ensures Size(r) == Size(n) && r.openState == n.openState && |r.children| == |n.children|
    decreases Size(n)
  {
    if ContainerCount(n.children) == 1 then
      var k := LastContainer(n.children);
      var descended := OpenObvious(Toggled(n.children[k]));
      assert SizeAll(n.children[k := descended]) == SizeAll(n.children) by {
        SizeAllUpdate(n.children, k, descended);
      }
      n.(children := n.children[k := descended])
    else n
  }

  /** Replacing a node by one of the same size keeps the total size. */
  lemma {:induction false} SizeAllUpdate(cs: seq<Node>, k: nat, x: Node)
    requires k < |cs| && Size(x) == Size(cs[k])
    ensures SizeAll(cs[k := x]) == SizeAll(cs)
    decreases cs
  {
    if k > 0 {
      SizeAllUpdate(cs[1..], k - 1, x);
      assert cs[k := x][1..] == cs[1..][k - 1 := x];
    }
  }

  /**
   * With exactly one container child, that child is toggled (and the
   * descent continues inside it) and every other child is left alone;
   * otherwise the node is unchanged.
   */
  lemma OpenObviousTouchesOnlyTheChild(n: Node)
    ensures ContainerCount(n.children) != 1 ==> OpenObvious(n) == n
    ensures ContainerCount(n.children) == 1 ==>
      var k := LastContainer(n.children);
      var r := OpenObvious(n);
      |r.children| == |n.children| && r.openState == n.openState &&
      (forall j :: 0 <= j < |n.children| && j != k ==> r.children[j] == n.children[j]) &&
      IsOpen(r.children[k]) == !IsOpen(n.children[k])
  {
    if ContainerCount(n.children) == 1 {
      var k := LastContainer(n.children);
      ToggleOpenShows(n.children[k]);
    }
  }

  /** The counting loop of openObviousDirectory, then the descent. */
  method OpenObviousDirectory(n: Node) returns (r: Node)
    ensures r == OpenObvious(n)
    decreases Size(n)
  {
    var dirCount := 0;
    var gotoDir := 0;
    var i := 0;
    while i < |n.children|
      invariant 0 <= i <= |n.children|
      invariant dirCount == ContainerCount(n.children[..i])
      invariant dirCount >= 1 ==> gotoDir == LastContainer(n.children[..i])
    {
      assert n.children[..i + 1][..i] == n.children[..i];
      if IsContainer(n.children[i]) {
        dirCount := dirCount + 1;
        gotoDir := i;
      }
      i := i + 1;
    }
    assert n.children[..i] == n.children;
    r := n;
    if dirCount == 1 {
      var child := ToggleOpenOnClick(n.children[gotoDir]);
      child := OpenObviousDirectory(child);
      r := n.(children := n.children[gotoDir := child]);
    }
  }

  // ---------------------------------------------------------------------
  // The display list
  // ---------------------------------------------------------------------

  /** A menu item: the object's name and the path of child indices from the root to its node. */
  datatype MenuItem = MenuItem(name: string, path: seq<nat>)

  /** The node a path leads to. */
  function NodeAt(n: Node, path: seq<nat>): Option<Node>
    decreases |path|
  {
    if path == [] then Some(n)
    else if path[0] < |n.children| then NodeAt(n.children[path[0]], path[1..])
    else None
  }

  lemma {:induction false} NodeAtAppend(n: Node, path: seq<nat>, m: Node, k: nat)
    requires NodeAt(n, path) == Some(m) && k < |m.children|
    ensures NodeAt(n, path + [k]) == Some(m.children[k])
    decreases |path|
  {
    if path == [] {
      assert [] + [k] == [k];
    } else {
      NodeAtAppend(n.children[path[0]], path[1..], m, k);
      assert (path + [k])[1..] == path[1..] + [k];
    }
  }

  /** The pre-order listing of the children cs[k..] of the node at path, descending into containers only. */
  function FlattenFrom(cs: seq<Node>, path: seq<nat>, k: nat): seq<MenuItem>
    requires k <= |cs|
    decreases cs, |cs| - k
  {
    if k == |cs| then []
    else
      [MenuItem(cs[k].name, path + [k])] +
      (if IsContainer(cs[k]) then FlattenFrom(cs[k].children, path + [k], 0) else []) +
      FlattenFrom(cs, path, k + 1)
  }

  /** populateMenu: the root, then its subtree in pre-order. */
  function DisplayListOf(root: Node): seq<MenuItem> {
    [MenuItem(root.name, [])] + FlattenFrom(root.children, [], 0)
  }

  lemma {:induction false} FlattenFromCount(cs: seq<Node>, path: seq<nat>, k: nat)
    requires k <= |cs|
    requires forall j :: 0 <= j < |cs| ==> WellFormed(cs[j])
    ensures |FlattenFrom(cs, path, k)| == SizeAll(cs[k..])
    decreases cs, |cs| - k
  {
    if k < |cs| {
      FlattenFromCount(cs, path, k + 1);
      if IsContainer(cs[k]) {
        FlattenFromCount(cs[k].children, path + [k], 0);
        assert cs[k].children[0..] == cs[k].children;
      } else {
        assert SizeAll(cs[k].children) == 0;
      }
      assert cs[k..][1..] == cs[k + 1..];
    }
  }

  lemma {:induction false} FlattenFromResolves(root: Node, cs: seq<Node>, path: seq<nat>, m: Node, k: nat)
    requires NodeAt(root, path) == Some(m) && m.children == cs && k <= |cs|
    ensures forall item :: item in FlattenFrom(cs, path, k) ==>
      NodeAt(root, item.path).Some? && NodeAt(root, item.path).value.name == item.name
    decreases cs, |cs| - k
  {
    if k < |cs| {
      NodeAtAppend(root, path, m, k);
      FlattenFromResolves(root, cs, path, m, k + 1);
      if IsContainer(cs[k]) {
        FlattenFromResolves(root, cs[k].children, path + [k], cs[k], 0);
      }
    }
  }

  /**
   * The display list has one entry per node of a well-formed tree, and
   * every entry's path leads to a node of the entry's name.
   */
  lemma DisplayListCoversTree(root: Node)
    ensures forall item :: item in DisplayListOf(root) ==>
      NodeAt(root, item.path).Some? && NodeAt(root, item.path).value.name == item.name
    ensures WellFormed(root) ==> |DisplayListOf(root)| == Size(root)
  {
    FlattenFromResolves(root, root.children, [], root, 0);
    if WellFormed(root) {
      FlattenFromCount(root.children, [], 0);
      assert root.children[0..] == root.children;
    }
  }

  /** The entry criterion: showInSearch in search mode, the LISTED bit otherwise. */
  predicate Shown(root: Node, item: MenuItem, searchMode: bool) {
    match NodeAt(root, item.path)
    case None => false
    case Some(n) => if searchMode then n.showInSearch else IsListed(n)
  }

  /** menuLength: the number of shown entries. */
  function CountShown(root: Node, items: seq<MenuItem>, searchMode: bool): (count: nat)
    ensures count <= |items|
  {
    if items == [] then 0
    else (if Shown(root, items[0], searchMode) then 1 else 0) + CountShown(root, items[1..], searchMode)
  }

  /** getEntry: the i-th shown entry, counting from 0. */
  function NthShown(root: Node, items: seq<MenuItem>, searchMode: bool, i: int): (entry: Option<MenuItem>)
    ensures entry.Some? ==> Shown(root, entry.value, searchMode)
  {
    if items == [] then None
    else if Shown(root, items[0], searchMode) then
      if i == 0 then Some(items[0]) else NthShown(root, items[1..], searchMode, i - 1)
    else NthShown(root, items[1..], searchMode, i)
  }

  /** Appending three pieces one after another is appending them together. */
  lemma AppendRegroup(a: seq<MenuItem>, b: seq<MenuItem>, c: seq<MenuItem>, d: seq<MenuItem>)
    ensures a + (b + c + d) == (a + b + c) + d
  {
  }

  /** One step of getEntry's scan: the first entry is the one sought, or the search moves past it. */
  lemma ShownStep(root: Node, items: seq<MenuItem>, searchMode: bool, i: int)
    requires items != []
    ensures NthShown(root, items, searchMode, i) ==
      if !Shown(root, items[0], searchMode) then NthShown(root, items[1..], searchMode, i)
      else if i == 0 then Some(items[0]) else NthShown(root, items[1..], searchMode, i - 1)
  {
  }

  /** The i-th shown entry exists exactly for 0 <= i < menuLength, and it is a shown entry of the list. */
  lemma {:induction false} NthShownInRange(root: Node, items: seq<MenuItem>, searchMode: bool, i: int)
    ensures NthShown(root, items, searchMode, i).Some? <==> 0 <= i < CountShown(root, items, searchMode)
    ensures NthShown(root, items, searchMode, i).Some? ==>
      var item := NthShown(root, items, searchMode, i).value;
      item in items && Shown(root, item, searchMode)
  {
    if items != [] {
      if Shown(root, items[0], searchMode) {
        if i != 0 {
          NthShownInRange(root, items[1..], searchMode, i - 1);
        }
      } else {
        NthShownInRange(root, items[1..], searchMode, i);
      }
    }
  }

  /** "(class) name", then the title in quotes when it says more than the name, then a tree's entry count. */
  function ToString(n: Node): (s: string)
    ensures var head := "(" + n.className + ") " + n.name;
      |head| <= |s| && s[..|head|] == head
    ensures var head := "(" + n.className + ") " + n.name;
      |s| > |head| <==> (n.title != [] && n.name != n.title) || (n.kind == TTree && n.entries > -1)
  {
    var nEntries := if n.kind == TTree then n.entries else -1;
    var head := "(" + n.className + ") " + n.name;
    var info := if n.title != [] && n.name != n.title then head + " \"" + n.title + "\"" else head;
    if nEntries > -1 then info + ", Entries: " + IntToString(nEntries) else info
  }

  class RootFile {
    var root: Node
    var displayList: seq<MenuItem>

    constructor(root: Node)
      ensures this.root == root && displayList == []
    {
      this.root := root;
      displayList := [];
    }

    /** populateMenu. */
    method PopulateMenu()
      modifies this`displayList
      ensures displayList == DisplayListOf(root)
    {
      displayList := [MenuItem(root.name, [])];
      AppendEntries(root.children, []);
    }

    /** The recursive populateMenu on the children of the node at path. */
    method AppendEntries(cs: seq<Node>, path: seq<nat>)
      modifies this`displayList
      ensures displayList == old(displayList) + FlattenFrom(cs, path, 0)
      decreases cs
    {
      var k := 0;
      while k < |cs|
        invariant 0 <= k <= |cs|
        invariant old(displayList) + FlattenFrom(cs, path, 0) == displayList + FlattenFrom(cs, path, k)
      {
        ghost var before := displayList;
        ghost var item := [MenuItem(cs[k].name, path + [k])];
        ghost var subtree := if IsContainer(cs[k]) then FlattenFrom(cs[k].children, path + [k], 0) else [];
        assert FlattenFrom(cs, path, k) == item + subtree + FlattenFrom(cs, path, k + 1);
        displayList := displayList + [MenuItem(cs[k].name, path + [k])];
        if IsContainer(cs[k]) {
          AppendEntries(cs[k].children, path + [k]);
        }
        assert displayList == before + item + subtree;
        AppendRegroup(before, item, subtree, FlattenFrom(cs, path, k + 1));
        k := k + 1;
      }
      assert old(displayList) + FlattenFrom(cs, path, 0) == displayList + [];
    }

    /** menuLength. */
    method MenuLength(searchMode: bool) returns (length: int)
      ensures length == CountShown(root, displayList, searchMode)
    {
      length := 0;
      var j := 0;
      while j < |displayList|
        invariant 0 <= j <= |displayList|
        invariant length + CountShown(root, displayList[j..], searchMode) == CountShown(root, displayList, searchMode)
      {
        assert displayList[j..][1..] == displayList[j + 1..];
        if Shown(root, displayList[j], searchMode) {
          length := length + 1;
        }
        j := j + 1;
      }
    }

    /** getEntry. */
    method GetEntry(i: int, searchMode: bool) returns (r: Option<MenuItem>)
      ensures r == NthShown(root, displayList, searchMode, i)
    {
      var entry := 0;
      var j := 0;
      while j < |displayList|
        invariant 0 <= j <= |displayList|
        invariant NthShown(root, displayList, searchMode, i) == NthShown(root, displayList[j..], searchMode, i - entry)
      {
        ghost var rest, sought := displayList[j..], i - entry;
        ShownStep(root, rest, searchMode, sought);
        assert rest[0] == displayList[j] && rest[1..] == displayList[j + 1..];
        if Shown(root, displayList[j], searchMode) {
          if entry == i {
            return Some(displayList[j]);
          }
          entry := entry + 1;
        }
        j := j + 1;
        assert NthShown(root, rest, searchMode, sought) == NthShown(root, displayList[j..], searchMode, i - entry);
      }
      r := None;
    }

    /** The opening steps of loading a file: list the root, open it, then open the obvious directories. */
    method OpenRoot()
      modifies this`root
      ensures root == OpenObvious(Toggled(old(root).(openState := old(root).openState | Listed)))
    {
      root := root.(openState := root.openState | Listed);
      root := ToggleOpenOnClick(root);
      root := OpenObviousDirectory(root);
    }
  }
}
