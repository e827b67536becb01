/**
 * The earlier object tree: setOpen, which sets a node's flags and those of
 * everything below it to one state, and a toString without entry counts.
 * The node's `open` flag is the LISTED bit of the current node and its
 * `directory_open` flag the DIR_OPEN bit; the display list, menuLength and
 * getEntry are those of the current file outside search mode.
 */
module EarlyRootFile {
  import opened CppLib
  import opened RootFile

  /** A state bit set or cleared. */
  function WithBit(s: bv8, bit: bv8, on: bool): (r: bv8)
    requires bit == Listed || bit == DirOpen
    ensures (r & bit) != 0 <==> on
    ensures bit == Listed ==> (r & DirOpen) == (s & DirOpen)
    ensures bit == DirOpen ==> (r & Listed) == (s & Listed)
  {
    if on then s | bit else s & !bit
  }

  /**
   * setOpen(state, recurse): a container sets `open` only when recurse > 0
   * (so the node clicked on stays listed), always sets `directory_open`, and
   * passes the state down with recurse + 1; anything else sets `open`.
   */
  function SetOpen(n: Node, state: bool, recurse: int): (r: Node)
    ensures r.kind == n.kind && r.name == n.name && r.title == n.title && r.className == n.className
    ensures r.entries == n.entries && r.showInSearch == n.showInSearch && |r.children| == |n.children|
    decreases n, 1
  {
    if IsContainer(n) then
      var s := if recurse > 0 then WithBit(n.openState, Listed, state) else n.openState;
      n.(openState := WithBit(s, DirOpen, state), children := SetOpenAll(n.children, state, recurse + 1))
    else n.(openState := WithBit(n.openState, Listed, state))
  }

  /** setOpen on every child. */
  function SetOpenAll(cs: seq<Node>, state: bool, recurse: int): (r: seq<Node>)
    ensures |r| == |cs|
    ensures forall k :: 0 <= k < |cs| ==> r[k] == SetOpen(cs[k], state, recurse)
    decreases cs, 0
  {
    if cs == [] then []
    else
      assert forall k :: 1 <= k < |cs| ==> cs[k] == cs[1..][k - 1];
      [SetOpen(cs[0], state, recurse)] + SetOpenAll(cs[1..], state, recurse)
  }

  /** A node whose flags all equal state, and the same below it when it is a container. */
  predicate UniformNode(n: Node, state: bool)
    decreases n, 1
  {
    IsListed(n) == state && (IsContainer(n) ==> IsOpen(n) == state && UniformBelow(n, state))
  }

  /** Every child of n uniform. */
  predicate UniformBelow(n: Node, state: bool)
    decreases n, 0
  {
    forall k :: 0 <= k < |n.children| ==> UniformNode(n.children[k], state)
  }

  /** With recurse > 0 setOpen leaves the children uniformly in the new state. */
  lemma {:induction false} SetOpenAllUniform(cs: seq<Node>, state: bool, recurse: int)
    requires recurse > 0
    ensures forall k :: 0 <= k < |cs| ==> UniformNode(SetOpenAll(cs, state, recurse)[k], state)
    decreases cs
  {
    var r := SetOpenAll(cs, state, recurse);
    forall k | 0 <= k < |cs| ensures UniformNode(r[k], state) {
      assert r[k] == SetOpen(cs[k], state, recurse);
      if IsContainer(cs[k]) {
        SetOpenAllUniform(cs[k].children, state, recurse + 1);
        assert r[k].children == SetOpenAll(cs[k].children, state, recurse + 1);
      }
    }
  }

  /**
   * setOpen sets everything below a node to the new state; the node itself
   * takes the state too, except that a container called with recurse <= 0
   * keeps its `open` flag.
   */
  lemma SetOpenUniform(n: Node, state: bool, recurse: int)
    requires recurse >= 0
    ensures var r := SetOpen(n, state, recurse);
      (IsContainer(n) ==> IsOpen(r) == state && UniformBelow(r, state)) &&
      (recurse > 0 || !IsContainer(n) ==> UniformNode(r, state)) &&
      (recurse == 0 && IsContainer(n) ==> IsListed(r) == IsListed(n))
  {
    if IsContainer(n) {
      SetOpenAllUniform(n.children, state, recurse + 1);
    }
  }

  /** A uniformly open child is listed all the way down; a uniformly closed one is hidden all the way down. */
  lemma {:induction false} UniformShown(c: Node, state: bool)
    requires UniformNode(c, state)
    ensures state ==> ListedChild(c)
    ensures !state ==> HiddenChild(c)
    decreases c
  {
    if IsContainer(c) {
      forall k | 0 <= k < |c.children|
        ensures state ==> ListedChild(c.children[k])
        ensures !state ==> HiddenChild(c.children[k])
      {
        UniformShown(c.children[k], state);
      }
    }
  }

  /**
   * Opening a container with setOpen(true, 0) lists everything below it, as
   * the current toggle does; closing it with setOpen(false, 0) hides
   * everything below it, whatever the flags were, where the current toggle
   * needs them to be consistent.
   */
  lemma SetOpenShows(n: Node, state: bool)
    requires IsContainer(n)
    ensures state ==> IsOpen(SetOpen(n, true, 0)) && AllListedBelow(SetOpen(n, true, 0))
    ensures !state ==> !IsOpen(SetOpen(n, false, 0)) && NoneListedBelow(SetOpen(n, false, 0))
  {
    var r := SetOpen(n, state, 0);
    SetOpenUniform(n, state, 0);
    forall k | 0 <= k < |r.children|
      ensures state ==> ListedChild(r.children[k])
      ensures !state ==> HiddenChild(r.children[k])
    {
      UniformShown(r.children[k], state);
    }
  }

  /** Setting a bit twice is setting it once. */
  lemma WithBitTwice(s: bv8, bit: bv8, on: bool)
    requires bit == Listed || bit == DirOpen
    ensures WithBit(WithBit(s, bit, on), bit, on) == WithBit(s, bit, on)
  {
  }

  /** setOpen on a node, recursing through SetOpenChildren. */
  method SetOpenNode(n: Node, state: bool, recurse: int) returns (r: Node)
    ensures r == SetOpen(n, state, recurse)
    decreases n, 1
  {
    var flags := n.openState;
    if recurse > 0 {
      flags := WithBit(flags, Listed, state);
    }
    if IsContainer(n) {
      flags := WithBit(flags, DirOpen, state);
      var cs := SetOpenChildren(n.children, state, recurse + 1);
      r := n.(openState := flags, children := cs);
    } else {
      WithBitTwice(n.openState, Listed, state);
      flags := WithBit(flags, Listed, state);
      r := n.(openState := flags);
    }
  }

  /** The loop of setOpen over the children. */
  method SetOpenChildren(children: seq<Node>, state: bool, recurse: int) returns (cs: seq<Node>)
    ensures cs == SetOpenAll(children, state, recurse)
    decreases children, 0
  {
    cs := children;
    var i := 0;
    while i < |cs|
      invariant 0 <= i <= |cs| == |children|
      invariant forall j :: 0 <= j < i ==> cs[j] == SetOpen(children[j], state, recurse)
      invariant forall j :: i <= j < |cs| ==> cs[j] == children[j]
    {
      var child := SetOpenNode(children[i], state, recurse);
      cs := cs[i := child];
      i := i + 1;
    }
  }

  /** toString of the earlier revision: the title in quotes whenever it differs from the name, and no entry count. */
  function EarlyToString(n: Node): (s: string)
    ensures var head := "(" + n.className + ") " + n.name;
      |head| <= |s| && s[..|head|] == head && (|s| > |head| <==> n.name != n.title)
  {
    var head := "(" + n.className + ") " + n.name;
    if n.name != n.title then head + " \"" + n.title + "\"" else head
  }

  /**
   * The two descriptions agree unless the title is empty and the name is
   * not (the earlier one then shows an empty quoted title) or the node is a
   * tree with an entry count (which only the current one shows).
   */
  lemma EarlyToStringAgrees(n: Node)
    ensures (n.title != [] || n.name == []) && !(n.kind == TTree && n.entries > -1) ==> EarlyToString(n) == ToString(n)
    ensures n.title == [] && n.name != [] && n.kind != TTree ==>
      EarlyToString(n) == ToString(n) + " \"\"" && EarlyToString(n) != ToString(n)
  {
  }
}
