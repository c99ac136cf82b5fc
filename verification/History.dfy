/** The undo tree: nodes hold the group of modifications that leads to them from their parent. */
module History {
  import opened Lines
  import opened Edits
  import opened Options

  const FIRST := 0
  const INVALID := -1

  datatype HistoryNode = HistoryNode(parent: int, redoChild: int, undoGroup: seq<Modification>)

  ghost predicate NodeOk(h: seq<HistoryNode>, texts: seq<string>, i: int)
    requires 0 <= i < |h| && |texts| == |h|
  {
    && ValidText(texts[i]) && texts[i] != ""
    && (if i == FIRST then h[i].parent == INVALID && h[i].undoGroup == []
        else
          && 0 <= h[i].parent < i && h[i].undoGroup != []
          && Replay(texts[h[i].parent], h[i].undoGroup) == Some(texts[i]))
    && (h[i].redoChild == INVALID || (0 < h[i].redoChild < |h| && h[h[i].redoChild].parent == i))
  }

  /** `texts` gives the text at each node: each one is what its group makes of its parent's. */
  ghost predicate HistoryOk(h: seq<HistoryNode>, texts: seq<string>) {
    && 0 < |h| == |texts|
    && forall i :: 0 <= i < |h| ==> NodeOk(h, texts, i)
  }

  ghost predicate IsNode(h: seq<HistoryNode>, id: int) {
    0 <= id < |h|
  }

  /** Parents come before their children. */
  ghost predicate TreeOk(h: seq<HistoryNode>) {
    && 0 < |h| && h[FIRST].parent == INVALID
    && forall i :: 0 < i < |h| ==> 0 <= h[i].parent < i
  }

  lemma HistoryIsTree(h: seq<HistoryNode>, texts: seq<string>)
    requires HistoryOk(h, texts)
    ensures TreeOk(h)
  {
    assert NodeOk(h, texts, FIRST);
    forall i | 0 < i < |h| ensures 0 <= h[i].parent < i {
      assert NodeOk(h, texts, i);
    }
  }

  ghost predicate IsAncestor(h: seq<HistoryNode>, a: int, id: int)
    requires TreeOk(h) && IsNode(h, id)
    decreases id
  {
    a == id || (id != FIRST && IsAncestor(h, a, h[id].parent))
  }

  ghost function Depth(h: seq<HistoryNode>, id: int): nat
    requires TreeOk(h) && IsNode(h, id)
    decreases id
  {
    if id == FIRST then 0 else 1 + Depth(h, h[id].parent)
  }

  lemma {:induction false} AncestorDepth(h: seq<HistoryNode>, a: int, id: int)
    requires TreeOk(h) && IsNode(h, id) && IsAncestor(h, a, id)
    ensures 0 <= a <= id && Depth(h, a) <= Depth(h, id)
    ensures Depth(h, a) == Depth(h, id) ==> a == id
    decreases id
  {
    if a != id {
      AncestorDepth(h, a, h[id].parent);
    }
  }

  lemma {:induction false} RootIsAncestor(h: seq<HistoryNode>, id: int)
    requires TreeOk(h) && IsNode(h, id)
    ensures IsAncestor(h, FIRST, id)
    decreases id
  {
    if id != FIRST {
      RootIsAncestor(h, h[id].parent);
    }
  }

  /** From the root to `id`, the redo child of each node is the next one on the path. */
  ghost predicate RedoPath(h: seq<HistoryNode>, id: int)
    requires TreeOk(h) && IsNode(h, id)
    decreases id
  {
    id == FIRST || (h[h[id].parent].redoChild == id && RedoPath(h, h[id].parent))
  }

  lemma {:induction false} RedoPathOfAncestor(h: seq<HistoryNode>, a: int, id: int)
    requires TreeOk(h) && IsNode(h, id) && RedoPath(h, id) && IsAncestor(h, a, id)
    ensures IsNode(h, a) && RedoPath(h, a)
    decreases id
  {
    if a != id {
      RedoPathOfAncestor(h, a, h[id].parent);
    }
  }

  /** Same tree and groups; redo children may differ. */
  ghost predicate SameTree(h: seq<HistoryNode>, h': seq<HistoryNode>) {
    && |h| <= |h'|
    && forall i :: 0 <= i < |h| ==> h'[i].parent == h[i].parent && h'[i].undoGroup == h[i].undoGroup
  }

  /** Redirecting the redo child of a node does not touch the path down to that node. */
  lemma {:induction false} RedoPathKept(h: seq<HistoryNode>, h': seq<HistoryNode>, x: int, id: int)
    requires TreeOk(h) && TreeOk(h') && SameTree(h, h') && IsNode(h, id) && id <= x
    requires forall i :: 0 <= i < |h| && i != x ==> h'[i].redoChild == h[i].redoChild
    requires RedoPath(h, id)
    ensures RedoPath(h', id)
    decreases id
  {
    if id != FIRST {
      RedoPathKept(h, h', x, h[id].parent);
    }
  }

  /** `h'` is `h` with redo children leading from the root to `id`, and all other redo children as before. */
  ghost predicate RedirectedTo(h: seq<HistoryNode>, h': seq<HistoryNode>, id: int) {
    && |h'| == |h| && TreeOk(h) && TreeOk(h') && SameTree(h, h') && IsNode(h, id) && RedoPath(h', id)
    && forall i :: 0 <= i < |h| && (i == id || !IsAncestor(h, i, id)) ==> h'[i] == h[i]
  }

  /** One more node on the path that redo follows. */
  lemma RedirectedOn(h: seq<HistoryNode>, h': seq<HistoryNode>, id: int)
    requires TreeOk(h) && IsNode(h, id) && id != FIRST && RedirectedTo(h, h', h[id].parent)
    ensures RedirectedTo(h, h'[h[id].parent := h'[h[id].parent].(redoChild := id)], id)
  {
    var parent := h[id].parent;
    var h'' := h'[parent := h'[parent].(redoChild := id)];
    RedoPathKept(h', h'', parent, parent);
    forall i | 0 <= i < |h| && (i == id || !IsAncestor(h, i, id)) ensures h''[i] == h[i] {
      if i == id && IsAncestor(h, id, parent) {
        AncestorDepth(h, id, parent);
      }
      assert IsAncestor(h, parent, id);
    }
  }

  lemma RedirectedNowhere(h: seq<HistoryNode>, id: int)
    requires TreeOk(h) && IsNode(h, id) && RedoPath(h, id)
    ensures RedirectedTo(h, h, id)
  {
  }

  /** The redo children on the path to a node are given by the tree. */
  lemma {:induction false} SamePath(h: seq<HistoryNode>, h': seq<HistoryNode>, id: int, a: int)
    requires TreeOk(h) && TreeOk(h') && SameTree(h, h') && IsNode(h, id) && RedoPath(h, id) && RedoPath(h', id)
    requires IsAncestor(h, a, id) && a != id
    ensures IsNode(h, a) && h'[a].redoChild == h[a].redoChild
    decreases id
  {
    if a != h[id].parent {
      SamePath(h, h', h[id].parent, a);
    }
  }

  /** Redirecting to a node that redo leads to changes nothing. */
  lemma RedirectedWhereItLeads(h: seq<HistoryNode>, h': seq<HistoryNode>, id: int)
    requires RedirectedTo(h, h', id) && RedoPath(h, id)
    ensures h' == h
  {
    forall i | 0 <= i < |h| ensures h'[i] == h[i] {
      if i != id && IsAncestor(h, i, id) {
        SamePath(h, h', id, i);
      }
    }
  }

  // ----- committing a group

  /** The history with `group` added as a child of `id`. */
  function Committed(h: seq<HistoryNode>, id: int, group: seq<Modification>): seq<HistoryNode>
    requires 0 <= id < |h|
  {
    if group == [] then h
    else h[id := h[id].(redoChild := |h|)] + [HistoryNode(id, INVALID, group)]
  }

  function CommittedId(h: seq<HistoryNode>, id: int, group: seq<Modification>): int {
    if group == [] then id else |h|
  }

  lemma CommitKeepsTree(h: seq<HistoryNode>, id: int, group: seq<Modification>)
    requires 0 <= id < |h|
    ensures SameTree(h, Committed(h, id, group))
  {
  }

  lemma SameTreeTransitive(h: seq<HistoryNode>, h': seq<HistoryNode>, h'': seq<HistoryNode>)
    requires SameTree(h, h') && SameTree(h', h'')
    ensures SameTree(h, h'')
  {
  }

  lemma CommitKeepsHistory(h: seq<HistoryNode>, texts: seq<string>, id: int, group: seq<Modification>, text: string)
    requires HistoryOk(h, texts) && IsNode(h, id) && group != [] && text != ""
    requires Replay(texts[id], group) == Some(text)
    ensures HistoryOk(Committed(h, id, group), texts + [text])
    ensures SameTree(h, Committed(h, id, group))
  {
    var h', texts' := Committed(h, id, group), texts + [text];
    assert NodeOk(h, texts, id);
    ReplayKeepsValid(texts[id], group);
    forall i | 0 <= i < |h'| ensures NodeOk(h', texts', i) {
      assert i < |h| ==> NodeOk(h, texts, i);
    }
  }

  lemma CommitKeepsRedoPath(h: seq<HistoryNode>, id: int, group: seq<Modification>)
    requires TreeOk(h) && IsNode(h, id) && RedoPath(h, id) && group != []
    ensures TreeOk(Committed(h, id, group)) && RedoPath(Committed(h, id, group), |h|)
  {
    RedoPathKept(h, Committed(h, id, group), id, id);
  }

  /** The text is what the pending group makes of the text at node `id`, which the redo
      children lead to. */
  ghost predicate AtNode(h: seq<HistoryNode>, texts: seq<string>, id: int, group: seq<Modification>, text: string) {
    && HistoryOk(h, texts) && TreeOk(h)
    && IsNode(h, id) && RedoPath(h, id)
    && Replay(texts[id], group) == Some(text)
  }

  /** Committing a pending group arrives at its new node, with nothing pending. */
  lemma CommitArrives(h: seq<HistoryNode>, texts: seq<string>, id: int, group: seq<Modification>, text: string)
    requires AtNode(h, texts, id, group, text) && group != [] && text != ""
    ensures AtNode(Committed(h, id, group), texts + [text], |h|, [], text)
  {
    CommitKeepsHistory(h, texts, id, group, text);
    CommitKeepsRedoPath(h, id, group);
    assert Replay(text, []) == Some(text);
  }

  lemma PendingGrows(h: seq<HistoryNode>, texts: seq<string>, id: int, group: seq<Modification>, text: string,
                     m: Modification)
    requires AtNode(h, texts, id, group, text) && CanApply(text, m)
    ensures AtNode(h, texts, id, group + [m], Apply(text, m))
  {
    ReplaySnoc(texts[id], group, m);
  }

  // ----- undoing and redoing several steps

  ghost function UndoTarget(h: seq<HistoryNode>, id: int, n: nat): (r: int)
    requires TreeOk(h) && IsNode(h, id)
    ensures IsNode(h, r)
    decreases n
  {
    if n == 0 || id == FIRST then id else UndoTarget(h, h[id].parent, n - 1)
  }

  /** As many steps towards the root as asked for, or all of them. */
  lemma {:induction false} UndoClimbs(h: seq<HistoryNode>, id: int, n: nat)
    requires TreeOk(h) && IsNode(h, id)
    ensures var top := UndoTarget(h, id, n);
      && IsAncestor(h, top, id)
      && Depth(h, top) == (if n <= Depth(h, id) then Depth(h, id) - n else 0)
      && (Depth(h, id) <= n <==> top == FIRST)
    decreases n
  {
    if n != 0 && id != FIRST {
      UndoClimbs(h, h[id].parent, n - 1);
    }
  }

  lemma {:induction false} RedoPathAbove(h: seq<HistoryNode>, id: int, n: nat)
    requires TreeOk(h) && IsNode(h, id) && RedoPath(h, id)
    ensures RedoPath(h, UndoTarget(h, id, n))
  {
    UndoClimbs(h, id, n);
    RedoPathOfAncestor(h, UndoTarget(h, id, n), id);
  }

  ghost predicate RedoOk(h: seq<HistoryNode>) {
    forall i :: 0 <= i < |h| ==> h[i].redoChild == INVALID || 0 <= h[i].redoChild < |h|
  }

  ghost function RedoTarget(h: seq<HistoryNode>, id: int, n: nat): (r: int)
    requires RedoOk(h) && IsNode(h, id)
    ensures IsNode(h, r)
    decreases n
  {
    if n == 0 || h[id].redoChild == INVALID then id else RedoTarget(h, h[id].redoChild, n - 1)
  }

  lemma {:induction false} RedoTargetSnoc(h: seq<HistoryNode>, id: int, n: nat)
    requires RedoOk(h) && IsNode(h, id)
    ensures RedoTarget(h, id, n + 1) ==
            (var r := RedoTarget(h, id, n); if h[r].redoChild == INVALID then r else h[r].redoChild)
    decreases n
  {
    if n != 0 && h[id].redoChild != INVALID {
      RedoTargetSnoc(h, h[id].redoChild, n - 1);
    }
  }

  /** `n` steps of undo are taken back by `n` steps of redo. */
  lemma {:induction false} RedoAfterUndo(h: seq<HistoryNode>, id: int, n: nat)
    requires TreeOk(h) && RedoOk(h) && IsNode(h, id) && RedoPath(h, id) && n <= Depth(h, id)
    ensures RedoTarget(h, UndoTarget(h, id, n), n) == id
    decreases n
  {
    if n != 0 {
      RedoAfterUndo(h, h[id].parent, n - 1);
      RedoTargetSnoc(h, UndoTarget(h, id, n), n - 1);
    }
  }

  // ----- the text at a node as a replay from the root

  ghost function PathGroup(h: seq<HistoryNode>, id: int): seq<Modification>
    requires TreeOk(h) && IsNode(h, id)
    decreases id
  {
    if id == FIRST then [] else PathGroup(h, h[id].parent) + h[id].undoGroup
  }

  /** The text at a node is the replay, from the first text, of every group on its path. */
  lemma {:induction false} TextIsReplay(h: seq<HistoryNode>, texts: seq<string>, id: int)
    requires HistoryOk(h, texts) && TreeOk(h) && IsNode(h, id)
    ensures Replay(texts[FIRST], PathGroup(h, id)) == Some(texts[id])
    decreases id
  {
    assert NodeOk(h, texts, id);
    if id != FIRST {
      TextIsReplay(h, texts, h[id].parent);
      ReplayConcat(texts[FIRST], PathGroup(h, h[id].parent), h[id].undoGroup);
    }
  }

  // ----- the lowest common parent

  method DepthOf(h: seq<HistoryNode>, start: int) returns (depth: nat)
    requires TreeOk(h) && IsNode(h, start)
    ensures depth == Depth(h, start)
  {
    var id := start;
    depth := 0;
    while h[id].parent != INVALID
      invariant IsNode(h, id) && depth + Depth(h, id) == Depth(h, start)
      decreases id
    {
      id, depth := h[id].parent, depth + 1;
    }
  }

  ghost predicate CommonAncestor(h: seq<HistoryNode>, x: int, a: int, b: int)
    requires TreeOk(h) && IsNode(h, a) && IsNode(h, b)
  {
    IsAncestor(h, x, a) && IsAncestor(h, x, b)
  }

  /** Every common ancestor of `a0` and `b0` is one of `a` and `b`, which lie on their paths. */
  ghost predicate Climbing(h: seq<HistoryNode>, a0: int, b0: int, a: int, b: int)
    requires TreeOk(h) && IsNode(h, a0) && IsNode(h, b0)
  {
    && IsNode(h, a) && IsNode(h, b) && IsAncestor(h, a, a0) && IsAncestor(h, b, b0)
    && forall x :: CommonAncestor(h, x, a0, b0) ==> CommonAncestor(h, x, a, b)
  }

  lemma {:induction false} AncestorTransitive(h: seq<HistoryNode>, a: int, b: int, id: int)
    requires TreeOk(h) && IsNode(h, b) && IsNode(h, id) && IsAncestor(h, a, b) && IsAncestor(h, b, id)
    ensures IsAncestor(h, a, id)
    decreases id
  {
    if b != id {
      AncestorTransitive(h, a, b, h[id].parent);
    }
  }

  lemma Climb(h: seq<HistoryNode>, a0: int, b0: int, a: int, b: int)
    requires TreeOk(h) && IsNode(h, a0) && IsNode(h, b0) && Climbing(h, a0, b0, a, b)
    requires Depth(h, a) > Depth(h, b) || (Depth(h, a) == Depth(h, b) && a != b)
    ensures a != FIRST && Climbing(h, a0, b0, h[a].parent, b)
  {
    if a == FIRST {
      RootIsAncestor(h, b);
      AncestorDepth(h, FIRST, b);
    }
    AncestorTransitive(h, h[a].parent, a, a0);
    forall x | CommonAncestor(h, x, a0, b0) ensures CommonAncestor(h, x, h[a].parent, b) {
      assert CommonAncestor(h, x, a, b);
      AncestorDepth(h, x, b);
    }
  }

  lemma Swap(h: seq<HistoryNode>, a0: int, b0: int, a: int, b: int)
    requires TreeOk(h) && IsNode(h, a0) && IsNode(h, b0) && Climbing(h, a0, b0, a, b)
    ensures Climbing(h, b0, a0, b, a)
  {
    forall x | CommonAncestor(h, x, b0, a0) ensures CommonAncestor(h, x, b, a) {
      assert CommonAncestor(h, x, a0, b0);
    }
  }

  method FindLowestCommonParent(h: seq<HistoryNode>, a0: int, b0: int) returns (r: int)
    requires TreeOk(h) && IsNode(h, a0) && IsNode(h, b0)
    ensures IsNode(h, r) && CommonAncestor(h, r, a0, b0)
    ensures forall x :: CommonAncestor(h, x, a0, b0) ==> IsAncestor(h, x, r)
  {
    var a, b := a0, b0;
    var depthA := DepthOf(h, a);
    var depthB := DepthOf(h, b);
    while depthA > depthB
      invariant Climbing(h, a0, b0, a, b) && depthA == Depth(h, a) && depthB == Depth(h, b)
    {
      Climb(h, a0, b0, a, b);
      a, depthA := h[a].parent, depthA - 1;
    }
    while depthB > depthA
      invariant Climbing(h, a0, b0, a, b) && depthA == Depth(h, a) <= depthB == Depth(h, b)
    {
      Swap(h, a0, b0, a, b);
      Climb(h, b0, a0, b, a);
      b, depthB := h[b].parent, depthB - 1;
      Swap(h, b0, a0, b, a);
    }
    while a != b
      invariant Climbing(h, a0, b0, a, b) && Depth(h, a) == Depth(h, b)
      decreases a
    {
      Climb(h, a0, b0, a, b);
      Swap(h, a0, b0, h[a].parent, b);
      Climb(h, b0, a0, b, h[a].parent);
      a, b := h[a].parent, h[b].parent;
      Swap(h, b0, a0, b, a);
    }
    r := a;
  }
}
