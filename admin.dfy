/**
 * One admin's session with the bot: the stored button tree, the undo/redo log
 * kept in the admin's user_data, the node the admin is looking at, and the
 * half-finished dialogues (collected content, the button picked for renaming,
 * a reorder in progress).  Each method is one branch of the bot's handlers
 * that edits the tree (main.py).
 */
module Admin {
  import opened Wrappers
  import opened ButtonTree
  import opened UndoLog
  import opened Markdown

  /** Keyboard labels the handlers compare the admin's text with. */
  const Cancel: string := "❌ لغو"
  const DeletePrefix: string := "❌ حذف "
  const RenamePrefix: string := "✏️ "
  const HashPrefix: string := "🔑 "
  const ReorderPrefix: string := "🔀 "

  // ---------------------------------------------------------------------------
  // Reading a button name back from a keyboard label
  // ---------------------------------------------------------------------------

  /** Python's str.replace(pat, rep): every occurrence of `pat`, scanned from the left without overlaps, becomes `rep`. */
  function ReplaceAll(s: string, pat: string, rep: string): string
    requires |pat| > 0
    decreases |s|
  {
    if |s| < |pat| then s
    else if s[..|pat|] == pat then rep + ReplaceAll(s[|pat|..], pat, rep)
    else [s[0]] + ReplaceAll(s[1..], pat, rep)
  }

  /** `pat` occurs nowhere in `s`. */
  predicate Free(s: string, pat: string) {
    forall i :: 0 <= i && i + |pat| <= |s| ==> !OccursAt(s, pat, i)
  }

  predicate OccursAt(s: string, pat: string, i: nat)
    requires i + |pat| <= |s|
  {
    s[i..i + |pat|] == pat
  }

  lemma {:induction false} ReplaceAllFree(s: string, pat: string, rep: string)
    requires |pat| > 0 && Free(s, pat)
    ensures ReplaceAll(s, pat, rep) == s
    decreases |s|
  {
    if |s| >= |pat| {
      assert !OccursAt(s, pat, 0);
      assert Free(s[1..], pat) by {
        forall i | 0 <= i && i + |pat| <= |s[1..]| ensures !OccursAt(s[1..], pat, i) {
          assert s[1..][i..i + |pat|] == s[i + 1..i + 1 + |pat|];
          assert !OccursAt(s, pat, i + 1);
        }
      }
      ReplaceAllFree(s[1..], pat, rep);
      assert [s[0]] + s[1..] == s;
    }
  }

  /**
   * The delete, rename and hash handlers read the button name back from the
   * label `prefix + name` they built; they get the name back exactly when the
   * prefix does not occur inside it.
   */
  lemma LabelNameRecovered(prefix: string, name: string)
    requires |prefix| > 0 && Free(name, prefix)
    ensures ReplaceAll(prefix + name, prefix, []) == name
  {
    var s := prefix + name;
    assert s[..|prefix|] == prefix;
    assert s[|prefix|..] == name;
    ReplaceAllFree(name, prefix, []);
  }

  // ---------------------------------------------------------------------------
  // Finding a button by its label
  // ---------------------------------------------------------------------------

  /** The position of the first id in `ids` whose label `prefix + name` is `text`. */
  function FirstLabelled(db: Tree, ids: seq<Id>, prefix: string, text: string): (r: Option<nat>)
    requires forall i :: 0 <= i < |ids| ==> ids[i] in db
    ensures r.None? <==> forall i :: 0 <= i < |ids| ==> prefix + db[ids[i]].name != text
    ensures r.Some? ==> r.value < |ids| && prefix + db[ids[r.value]].name == text
    ensures r.Some? ==> forall i :: 0 <= i < r.value ==> prefix + db[ids[i]].name != text
    decreases |ids|
  {
    if ids == [] then None
    else if prefix + db[ids[0]].name == text then Some(0)
    else match FirstLabelled(db, ids[1..], prefix, text)
      case None => None
      case Some(k) => Some(k + 1)
  }

  /** How the reorder branch's search ends: a match, no match, or a KeyError on an id that is no longer a key. */
  datatype Scan = Hit(at: nat) | Miss | Raises(at: nat)

  /**
   * The search of the reorder branch as written: each waiting id is looked
   * up with `db[cid]` before its label is compared, so an id that has left
   * the tree raises KeyError once the search reaches it.  Over ids that are
   * all keys it is FirstLabelled.
   */
  function ScanLabels(db: Tree, ids: seq<Id>, prefix: string, text: string): (r: Scan)
    ensures r.Hit? ==> r.at < |ids| && ids[r.at] in db && prefix + db[ids[r.at]].name == text
    ensures r.Raises? ==> r.at < |ids| && ids[r.at] !in db
    ensures !r.Miss? ==> forall j :: 0 <= j < r.at ==> ids[j] in db && prefix + db[ids[j]].name != text
    ensures r.Miss? ==> forall j :: 0 <= j < |ids| ==> ids[j] in db && prefix + db[ids[j]].name != text
    ensures (forall j :: 0 <= j < |ids| ==> ids[j] in db) ==>
      match FirstLabelled(db, ids, prefix, text)
      case None => r == Miss
      case Some(i) => r == Hit(i)
    decreases |ids|
  {
    if ids == [] then Miss
    else if ids[0] !in db then Raises(0)
    else if prefix + db[ids[0]].name == text then Hit(0)
    else match ScanLabels(db, ids[1..], prefix, text)
      case Hit(k) => Hit(k + 1)
      case Miss => Miss
      case Raises(k) => Raises(k + 1)
  }

  /** The `for ... if ...: break` search the handlers run over a list of child ids. */
  method FindLabel(db: Tree, ids: seq<Id>, prefix: string, text: string) returns (r: Option<nat>)
    requires forall i :: 0 <= i < |ids| ==> ids[i] in db
    ensures r == FirstLabelled(db, ids, prefix, text)
  {
    for i := 0 to |ids|
      invariant forall j :: 0 <= j < i ==> prefix + db[ids[j]].name != text
    {
      if prefix + db[ids[i]].name == text {
        return Some(i);
      }
    }
    return None;
  }

  /** is_valid_node_id: the text is a key of the tree (every stored record is a dictionary). */
  function IsValidNodeId(text: string, db: Tree): (b: bool)
    ensures b ==> text in db
    ensures text in db ==> b
  {
    text in db
  }

  // ---------------------------------------------------------------------------
  // Reorder as written
  // ---------------------------------------------------------------------------

  /** The final reorder step as written: the chosen order replaces the children of whatever node is current. */
  function InstallOrder(db: Tree, cur: Id, order: seq<Id>): (t: Tree)
    requires cur in db
    ensures t.Keys == db.Keys && t[cur].children == order
  {
    db[cur := db[cur].(children := order)]
  }

  /** The tree three plain adds build from a first run: a button `a` under the root, and `x`, `y` under `a`. */
  function Sample(): Tree {
    WithNewButton(SampleStep(2), "a", "y", "Y")
  }

  /** The tree after the first `n` of those adds (n <= 2). */
  function SampleStep(n: nat): Tree
    decreases n
  {
    if n == 0 then InitialTree()
    else if n == 1 then WithNewButton(InitialTree(), Root, "a", "A")
    else WithNewButton(SampleStep(1), "a", "x", "X")
  }

  /** The birth order of those three adds. */
  function SampleRanking(): Ranking {
    BornNow(BornNow(BornNow(Ranking(map[Root := 0], 1), "a"), "x"), "y")
  }

  /**
   * The reorder keeps its lists in user_data while the current node changes
   * (an undo or redo sends the admin to the root, and so do the navigation
   * buttons).  Finishing a reorder started on `a` after that installs `a`'s
   * children under the root: the root loses its own children and `x`, `y`
   * end up listed under a node that is not their parent.
   */
  lemma StaleReorderBreaksTree()
    ensures WellFormed(Sample(), SampleRanking())
    ensures forall r :: !WellFormed(InstallOrder(Sample(), Root, ["x", "y"]), r)
    ensures "a" !in InstallOrder(Sample(), Root, ["x", "y"])[Root].children
  {
    SampleWellFormed();
    var t := InstallOrder(Sample(), Root, ["x", "y"]);
    assert t["x"] == NewButton("X", "a") by {
      assert "x" != Root && "x" != "y";
    }
    assert t[Root].children[0] == "x";
    assert !ParentsAgree(t) by {
      assert Root in t && "x" in t[Root].children && "x" in t;
    }
  }

  /**
   * The delete branch runs before the reorder branch and does not look at
   * the dialogue.  Deleting `y` from `a` while a reorder of `a`'s children
   * waits leaves `y` in the dialogue: every later message that reaches the
   * reorder branch, "↩️" and "↪️" among them, raises KeyError at `y`,
   * except "🔀 X", which moves `x` and then raises when the keyboard of the
   * ids left (only `y`) is drawn.  The dialogue no longer matches `a`'s
   * children, which is what the reorder step checks before it runs.
   */
  lemma DeletedChoiceRaises()
    ensures WellFormed(Sample(), SampleRanking()) && "a" in Sample() && "y" in Sample()["a"].children
    ensures SampleWithoutY() == Detach(Sample(), "a", "y") - Subtree(Sample(), SampleRanking(), "y")
    ensures var d := Reorder(true, ["x", "y"], []);
      && Tracks(d, Sample()["a"].children)
      && var t := SampleWithoutY();
        && "y" !in t && "a" in t && !Tracks(d, t["a"].children)
        && (forall text :: text != ReorderPrefix + "X" ==> ScanLabels(t, d.remaining, ReorderPrefix, text) == Raises(1))
        && ScanLabels(t, d.remaining, ReorderPrefix, ReorderPrefix + "X") == Hit(0)
        && (forall text :: ScanLabels(t, ["y"], ReorderPrefix, text) == Raises(0))
  {
    SampleDeleteY();
    var t := SampleWithoutY();
    forall text ensures ScanLabels(t, ["x", "y"], ReorderPrefix, text) == if text == ReorderPrefix + "X" then Hit(0) else Raises(1) {
      ScanWithoutY(text);
    }
    assert multiset(t["a"].children) != multiset(["x", "y"]) by {
      assert multiset(t["a"].children)["y"] == 0;
    }
  }

  /** The reorder search over `x`, `y` once `y` is gone: only the label of `x` is found, every other text raises at `y`. */
  lemma ScanWithoutY(text: string)
    ensures ScanLabels(SampleWithoutY(), ["y"], ReorderPrefix, text) == Raises(0)
    ensures ScanLabels(SampleWithoutY(), ["x", "y"], ReorderPrefix, text) == if text == ReorderPrefix + "X" then Hit(0) else Raises(1)
  {
    SampleDeleteY();
    assert ["x", "y"][1..] == ["y"];
  }

  /** `Sample()` after the delete branch has removed `y` from `a`. */
  function SampleWithoutY(): Tree {
    Detach(Sample(), "a", "y") - {"y"}
  }

  lemma SampleDeleteY()
    ensures WellFormed(Sample(), SampleRanking()) && "a" in Sample() && Sample()["a"].children == ["x", "y"]
    ensures Subtree(Sample(), SampleRanking(), "y") == {"y"}
    ensures var t := SampleWithoutY();
      && "y" !in t && "a" in t && "x" in t && t["x"].name == "X" && t["a"].children == ["x"]
  {
    SampleShape();
    SampleSubtreeY();
    var s := Sample();
    var d := Detach(s, "a", "y");
    assert d["a"].children == ["x"] by {
      assert IndexOf(["x", "y"], "y") == 1;
    }
    assert d["x"] == s["x"] by {
      assert "x" != "a";
    }
    assert SampleWithoutY() == d - {"y"};
    assert "a" != "y" && "x" != "y";
  }

  /** `y` is a leaf, so deleting it removes `y` alone. */
  lemma SampleSubtreeY()
    ensures WellFormed(Sample(), SampleRanking())
    ensures Subtree(Sample(), SampleRanking(), "y") == {"y"}
  {
    SampleShape();
    SampleWellFormed();
  }

  /** The records of `Sample()` the delete example reads. */
  lemma SampleShape()
    ensures var s := Sample();
      && "a" in s && "x" in s && "y" in s
      && s["a"].children == ["x", "y"] && s["x"].name == "X" && s["y"].children == []
  {
    assert "a" in SampleStep(2) && SampleStep(2)["a"].children == ["x"] by {
      assert SampleStep(1)["a"].children == [];
    }
  }

  lemma SampleWellFormed()
    ensures WellFormed(Sample(), SampleRanking())
  {
    var r1 := BornNow(Ranking(map[Root := 0], 1), "a");
    assert WellFormed(SampleStep(2), BornNow(r1, "x")) by {
      SampleStepWellFormed();
    }
    assert "y" != Root && "y" != "a" && "y" != "x";
    ListNewButton(SampleStep(2), BornNow(r1, "x"), "a", "y", "Y");
  }

  lemma SampleStepWellFormed()
    ensures var r1 := BornNow(Ranking(map[Root := 0], 1), "a");
      && WellFormed(SampleStep(1), r1) && WellFormed(SampleStep(2), BornNow(r1, "x"))
      && "a" in SampleStep(2)
  {
    var r0 := Ranking(map[Root := 0], 1);
    var r1 := BornNow(r0, "a");
    assert WellFormed(SampleStep(1), r1) by {
      assert "a" != Root;
      ListNewButton(InitialTree(), r0, Root, "a", "A");
    }
    assert "x" != Root && "x" != "a";
    ListNewButton(SampleStep(1), r1, "a", "x", "X");
  }

  // ---------------------------------------------------------------------------
  // The two recursive tree walks
  // ---------------------------------------------------------------------------

  /**
   * delete_node_recursive(db, node_id): the children of `id` are deleted one
   * after the other, then `id` itself; an absent id changes nothing.  The
   * dictionary is passed in and handed back.
   */
  method DeleteNodeRecursive(db: Tree, ghost r: Ranking, id: Id) returns (d: Tree)
    requires Ranked(db, r)
    ensures d == db - Subtree(db, r, id)
    decreases if id in db then r.clock - r.born[id] else 0
  {
    d := db;
    if id !in d {
      return;
    }
    var children := d[id].children;
    for i := 0 to |children|
      invariant d == db - Below(db, r, children[..i])
    {
      DeleteLoopStep(db, r, children, i, d);
      d := DeleteNodeRecursive(d, r, children[i]);
    }
    DeleteLast(db, r, id, children, d);
    d := d - {id};
  }

  /** After the loop over the children, removing the node itself completes its subtree. */
  lemma DeleteLast(db: Tree, r: Ranking, id: Id, children: seq<Id>, d: Tree)
    requires Ranked(db, r) && id in db && children == db[id].children
    requires d == db - Below(db, r, children[..|children|])
    ensures d - {id} == db - Subtree(db, r, id)
  {
    assert children[..|children|] == children;
    SubtreeUnfold(db, r, id);
    assert (d - {id}).Keys == db.Keys - Subtree(db, r, id);
  }

  /**
   * clone_node(old_id, new_parent): a fresh id for the copy of `oldId`, then
   * the copies of its children, in order.  `db` and `issued` are the
   * dictionary and the number of uuid answers used, handed in and back;
   * `src` and `r0` are the tree and ranking before the copy started.
   */
  method CloneNode(db: Tree, issued: nat, uuid: nat -> Id, ghost src: Tree, ghost r0: Ranking, oldId: Id, newParent: Id)
    returns (d: Tree, next: nat, newId: Id)
    requires Ranked(src, r0) && Closed(src) && oldId in src && Injective(uuid)
    requires forall k :: k in src ==> k in db && db[k] == src[k]
    requires forall k :: issued <= k ==> uuid(k) !in src
    ensures var c := CloneTree(src, r0, uuid, oldId, newParent, issued);
      d == db + c.nodes && next == c.next && newId == uuid(issued)
    decreases r0.clock - r0.born[oldId], 1
  {
    newId := uuid(issued);
    next := issued + 1;
    var original := db[oldId];
    d := db[newId := Node(original.name, Some(newParent), [], original.contents)];
    var kids := original.children;
    ghost var top := d[newId];
    ghost var lvl := r0.born[oldId];
    ChildrenYounger(src, r0, oldId);
    for i := 0 to |kids|
      invariant Cloning(db, src, r0, uuid, kids, i, issued, lvl, top, d, next)
    {
      d, next := CloneChild(db, src, r0, uuid, kids, i, issued, lvl, top, d, next);
    }
    CloneLast(db, src, r0, uuid, oldId, newParent, issued, d, next);
  }

  /**
   * The state of clone_node's loop after `i` children: the copies of
   * `kids[..i]` are stored and listed, in order, as the children of the new
   * node `uuid(issued)`, whose record is otherwise `top`; the records of the
   * source are untouched.
   */
  ghost predicate Cloning(db: Tree, src: Tree, r0: Ranking, uuid: nat -> Id, kids: seq<Id>, i: nat, issued: nat, lvl: nat,
                          top: Node, d: Tree, next: nat)
  {
    && Ranked(src, r0) && Closed(src) && lvl < r0.clock && i <= |kids|
    && (forall x :: x in kids ==> x in src && lvl < r0.born[x])
    && var f := CloneForest(src, r0, uuid, kids[..i], uuid(issued), issued + 1, lvl);
    && d == (db + f.nodes)[uuid(issued) := top.(children := f.roots)]
    && next == f.next
    && (forall k :: k in src ==> k in d && d[k] == src[k])
  }

  /** One round of clone_node's loop: the copy of `kids[i]`, then its id appended to the new node's children. */
  method CloneChild(db: Tree, ghost src: Tree, ghost r0: Ranking, uuid: nat -> Id, kids: seq<Id>, i: nat, issued: nat,
                    ghost lvl: nat, ghost top: Node, d0: Tree, next0: nat)
    returns (d: Tree, next: nat)
    requires Cloning(db, src, r0, uuid, kids, i, issued, lvl, top, d0, next0) && i < |kids|
    requires Injective(uuid) && forall k :: issued <= k ==> uuid(k) !in src
    ensures Cloning(db, src, r0, uuid, kids, i + 1, issued, lvl, top, d, next)
    decreases r0.clock - lvl, 0
  {
    var newId := uuid(issued);
    var childId;
    d, next, childId := CloneNode(d0, next0, uuid, src, r0, kids[i], newId);
    CloneLoopStep(db, src, r0, uuid, kids, i, newId, issued + 1, lvl, issued, top, d0, d);
    CloneStepKeepsSource(src, r0, uuid, kids, i, newId, issued + 1, lvl, issued, d0, d);
    d := d[newId := d[newId].(children := d[newId].children + [childId])];
  }

  /** The children of a node are keys of the tree, born after it. */
  lemma ChildrenYounger(db: Tree, r: Ranking, id: Id)
    requires Ranked(db, r) && Closed(db) && id in db
    ensures id in r.born && r.born[id] < r.clock
    ensures forall x :: x in db[id].children ==> x in db && r.born[id] < r.born[x]
  {
  }

  /** After the loop over the children, the state is the copy clone_node promises. */
  lemma CloneLast(db: Tree, src: Tree, r0: Ranking, uuid: nat -> Id, oldId: Id, newParent: Id, issued: nat, d: Tree, next: nat)
    requires Ranked(src, r0) && Closed(src) && oldId in src
    requires var o := src[oldId];
      var f := CloneForest(src, r0, uuid, o.children[..|o.children|], uuid(issued), issued + 1, r0.born[oldId]);
      && d == (db + f.nodes)[uuid(issued) := Node(o.name, Some(newParent), f.roots, o.contents)]
      && next == f.next
    ensures var c := CloneTree(src, r0, uuid, oldId, newParent, issued);
      d == db + c.nodes && next == c.next
  {
    var o := src[oldId];
    assert o.children[..|o.children|] == o.children;
    var f := CloneForest(src, r0, uuid, o.children, uuid(issued), issued + 1, r0.born[oldId]);
    var top := Node(o.name, Some(newParent), f.roots, o.contents);
    assert CloneTree(src, r0, uuid, oldId, newParent, issued) == Copy(f.nodes[uuid(issued) := top], [uuid(issued)], f.next);
    Patch(db, f.nodes, uuid(issued), top);
  }

  /** Patching a record, overlaying records without it, then patching it again is one overlay and the last patch. */
  lemma Overlay(db: Tree, a: Tree, b: Tree, n: Id, x: Node, y: Node)
    requires n !in b
    ensures ((db + a)[n := x] + b)[n := y] == (db + (a + b))[n := y]
  {
  }

  /**
   * One round of clone_node's loop: after the copy of the next child is
   * stored, appending its id to the new node's children gives the state the
   * loop invariant describes for one more child.
   */
  lemma CloneLoopStep(db: Tree, src: Tree, r0: Ranking, uuid: nat -> Id, kids: seq<Id>, i: nat, newId: Id,
                      start: nat, lvl: nat, issued: nat, blank: Node, before: Tree, after: Tree)
    requires Ranked(src, r0) && Closed(src) && lvl < r0.clock && Injective(uuid)
    requires forall x :: x in kids ==> x in src && lvl < r0.born[x]
    requires i < |kids| && issued < start && newId == uuid(issued)
    requires forall k :: issued <= k ==> uuid(k) !in src
    requires var front := CloneForest(src, r0, uuid, kids[..i], newId, start, lvl);
      && before == (db + front.nodes)[newId := blank.(children := front.roots)]
      && after == before + CloneTree(src, r0, uuid, kids[i], newId, front.next).nodes
    ensures var front := CloneForest(src, r0, uuid, kids[..i], newId, start, lvl);
      var grown := CloneForest(src, r0, uuid, kids[..i + 1], newId, start, lvl);
      && grown.next == CloneTree(src, r0, uuid, kids[i], newId, front.next).next
      && newId in after
      && after[newId := after[newId].(children := after[newId].children + [uuid(front.next)])]
         == (db + grown.nodes)[newId := blank.(children := grown.roots)]
  {
    var front := CloneForest(src, r0, uuid, kids[..i], newId, start, lvl);
    var last := CloneTree(src, r0, uuid, kids[i], newId, front.next);
    var grown := CloneForest(src, r0, uuid, kids[..i + 1], newId, start, lvl);
    assert grown.nodes == front.nodes + last.nodes && grown.roots == front.roots + [uuid(front.next)] && grown.next == last.next by {
      assert kids[..i + 1][..i] == kids[..i] && kids[..i + 1][i] == kids[i];
    }
    assert newId !in last.nodes by {
      UuidRangesDisjoint(uuid, issued, start, front.next, last.next);
    }
    Overlay(db, front.nodes, last.nodes, newId, before[newId], blank.(children := grown.roots));
  }

  /** The copy of one more child adds only fresh ids, so the records of `src` stay as they were. */
  lemma CloneStepKeepsSource(src: Tree, r0: Ranking, uuid: nat -> Id, kids: seq<Id>, i: nat, newId: Id,
                             start: nat, lvl: nat, issued: nat, before: Tree, after: Tree)
    requires Ranked(src, r0) && Closed(src) && lvl < r0.clock
    requires forall x :: x in kids ==> x in src && lvl < r0.born[x]
    requires i < |kids| && issued < start
    requires forall k :: issued <= k ==> uuid(k) !in src
    requires var front := CloneForest(src, r0, uuid, kids[..i], newId, start, lvl);
      after == before + CloneTree(src, r0, uuid, kids[i], newId, front.next).nodes
    ensures forall k :: k in src ==> k in before ==> k in after && after[k] == before[k]
  {
    var front := CloneForest(src, r0, uuid, kids[..i], newId, start, lvl);
    var last := CloneTree(src, r0, uuid, kids[i], newId, front.next);
    RangeOutside(uuid, front.next, last.next, src, issued);
  }

  /** Oracle answers drawn from `issued` on are not keys of `src`. */
  lemma RangeOutside(uuid: nat -> Id, a: nat, b: nat, src: Tree, issued: nat)
    requires issued <= a && forall k :: issued <= k ==> uuid(k) !in src
    ensures UuidRange(uuid, a, b) !! src.Keys
  {
    forall x | x in UuidRange(uuid, a, b) ensures x !in src {
      var j :| a <= j < b && uuid(j) == x;
    }
  }

  /** Patching a record after an overlay is the overlay of the patched records. */
  lemma Patch(db: Tree, a: Tree, n: Id, x: Node)
    ensures (db + a)[n := x] == db + a[n := x]
  {
  }

  /**
   * The copy branch of add_button: `src` is copied with fresh ids drawn from
   * `issued` on, and the copy is listed last among the children of `cur`.
   * The result is well formed under the ranking that records the births.
   */
  method CopyUnder(db: Tree, ghost r: Ranking, ghost log: Log<Tree>, issued: nat, uuid: nat -> Id, src: Id, cur: Id)
    returns (d: Tree, next: nat)
    requires Consistent(db, r, log, uuid, issued, 2) && src in db && cur in db
    ensures d == CloneInto(db, r, uuid, src, cur, issued)
    ensures next == CloneTree(db, r, uuid, src, cur, issued).next
    ensures cur in d && exists r2 :: Consistent(d, r2, Push(log, db), uuid, next, 2)
  {
    AddCopyKeeps(db, r, log, uuid, issued, src, cur);
    var copied, newRoot;
    copied, next, newRoot := CloneNode(db, issued, uuid, db, r, src, cur);
    d := copied[cur := copied[cur].(children := copied[cur].children + [newRoot])];
  }

  /** Every snapshot in `h` is a well-formed tree. */
  ghost predicate Snapshots(h: seq<Tree>, r: Ranking)
    decreases |h|, 1
  {
    h == [] || NewestSnapshot(h, r)
  }

  /** The newest snapshot of a non-empty list is well formed, and so are the older ones. */
  ghost predicate NewestSnapshot(h: seq<Tree>, r: Ranking)
    requires h != []
    decreases |h|, 0
  {
    WellFormed(h[|h| - 1], r) && Snapshots(h[..|h| - 1], r)
  }

  lemma {:induction false} SnapshotsEach(h: seq<Tree>, r: Ranking)
    ensures Snapshots(h, r) <==> forall i :: 0 <= i < |h| ==> WellFormed(h[i], r)
    decreases |h|
  {
    if h != [] {
      SnapshotsEach(h[..|h| - 1], r);
    }
  }

  /** A snapshot pushed on a log of well-formed snapshots leaves only well-formed snapshots. */
  lemma PushSnapshots(log: Log<Tree>, cur: Tree, r: Ranking)
    requires Snapshots(log.history, r) && WellFormed(cur, r)
    ensures Snapshots(Push(log, cur).history, r) && Snapshots(Push(log, cur).future, r)
  {
    SnapshotsEach(log.history, r);
    SnapshotsEach(Push(log, cur).history, r);
    SnapshotsEach([], r);
    var h := Push(log, cur).history;
    if |log.history| >= MaxHistory {
      forall i | 0 <= i < |h| ensures WellFormed(h[i], r) {
        if i < |h| - 1 {
          assert h[i] == log.history[i + 1];
        }
      }
    }
  }

  /**
   * Taking the newest snapshot off `h` and putting the current tree `d` on
   * `f` (an undo, or with the lists swapped a redo) yields a well-formed tree
   * and two lists of well-formed snapshots.
   */
  lemma PopSnapshot(h: seq<Tree>, f: seq<Tree>, d: Tree, r: Ranking)
    requires h != [] && Snapshots(h, r) && Snapshots(f, r) && WellFormed(d, r)
    ensures WellFormed(h[|h| - 1], r) && Snapshots(h[..|h| - 1], r) && Snapshots(f + [d], r)
  {
    assert NewestSnapshot(h, r);
    assert (f + [d])[..|f|] == f;
    assert NewestSnapshot(f + [d], r);
  }

  /** Snapshots stay well formed when the ranking is extended by new births. */
  lemma {:induction false} SnapshotsExtend(h: seq<Tree>, r1: Ranking, r2: Ranking)
    requires Snapshots(h, r1) && Extends(r1, r2)
    ensures Snapshots(h, r2)
    decreases |h|
  {
    if h != [] {
      SnapshotsExtend(h[..|h| - 1], r1, r2);
      WellFormedExtends(h[|h| - 1], r1, r2);
    }
  }

  // ---------------------------------------------------------------------------
  // What every handler keeps
  // ---------------------------------------------------------------------------

  /**
   * The session's invariant on values: the tree and every snapshot in the
   * log are well formed under the ranking `r`, the log is within its bound,
   * and the uuid answers from `issued` on are ids never seen.  The definition
   * sits behind two levels of recursion on `depth`, so that the verifier
   * unfolds it only where a proof asks for it (ConsistentParts); the handlers
   * pass it on through the lemmas below.
   */
  ghost predicate Consistent(db: Tree, r: Ranking, log: Log<Tree>, uuid: nat -> Id, issued: nat, depth: nat)
    decreases depth
  {
    if depth > 0 then Consistent(db, r, log, uuid, issued, depth - 1)
    else
      && WellFormed(db, r) && Injective(uuid) && FreshFrom(uuid, r, issued)
      && Bounded(log) && Snapshots(log.history, r) && Snapshots(log.future, r)
  }

  lemma ConsistentParts(db: Tree, r: Ranking, log: Log<Tree>, uuid: nat -> Id, issued: nat)
    ensures Consistent(db, r, log, uuid, issued, 2) <==>
      && WellFormed(db, r) && Injective(uuid) && FreshFrom(uuid, r, issued)
      && Bounded(log) && Snapshots(log.history, r) && Snapshots(log.future, r)
  {
    assert Consistent(db, r, log, uuid, issued, 1) == Consistent(db, r, log, uuid, issued, 2);
  }

  /** The lone root of a first run, with an empty log and no uuid answer used yet. */
  lemma InitialConsistent(uuid: nat -> Id)
    requires Injective(uuid) && forall k :: uuid(k) != Root
    ensures Consistent(InitialTree(), Ranking(map[Root := 0], 1), Cleared(), uuid, 0, 2)
  {
    ConsistentParts(InitialTree(), Ranking(map[Root := 0], 1), Cleared(), uuid, 0);
  }

  /**
   * A snapshot of the tree, then a new tree `d` in its place that is well
   * formed under the same ranking: the path of every edit that adds no id.
   */
  lemma EditKeeps(db: Tree, r: Ranking, log: Log<Tree>, uuid: nat -> Id, issued: nat, d: Tree)
    requires Consistent(db, r, log, uuid, issued, 2) && WellFormed(d, r)
    ensures Consistent(d, r, Push(log, db), uuid, issued, 2)
  {
    ConsistentParts(db, r, log, uuid, issued);
    PushSnapshots(log, db, r);
    PushBounded(log, db);
    ConsistentParts(d, r, Push(log, db), uuid, issued);
  }

  /** A snapshot, then one record replaced by one with the same parent and children. */
  lemma RecordEditKeeps(db: Tree, r: Ranking, log: Log<Tree>, uuid: nat -> Id, issued: nat, p: Id, n: Node)
    requires Consistent(db, r, log, uuid, issued, 2) && p in db
    requires n.children == db[p].children && n.parent == db[p].parent
    ensures Consistent(db[p := n], r, Push(log, db), uuid, issued, 2)
  {
    ConsistentParts(db, r, log, uuid, issued);
    RecordEditKeepsWellFormed(db, r, p, n);
    EditKeeps(db, r, log, uuid, issued, db[p := n]);
  }

  /** A snapshot, then the child `target` of `p` unlisted and its subtree deleted. */
  lemma DeleteKeeps(db: Tree, r: Ranking, log: Log<Tree>, uuid: nat -> Id, issued: nat, p: Id, target: Id)
    requires Consistent(db, r, log, uuid, issued, 2) && p in db && target in db[p].children
    ensures var t := Detach(db, p, target);
      && Ranked(t, r)
      && t - Subtree(t, r, target) == t - Subtree(db, r, target)
    ensures var d := Detach(db, p, target) - Subtree(db, r, target);
      p in d && Consistent(d, r, Push(log, db), uuid, issued, 2)
  {
    ConsistentParts(db, r, log, uuid, issued);
    DeleteOutcome(db, r, p, target);
    EditKeeps(db, r, log, uuid, issued, Detach(db, p, target) - Subtree(db, r, target));
  }

  /** A snapshot, then the children of `p` put in the order `cs`, a permutation of them. */
  lemma ReorderKeeps(db: Tree, r: Ranking, log: Log<Tree>, uuid: nat -> Id, issued: nat, p: Id, cs: seq<Id>)
    requires Consistent(db, r, log, uuid, issued, 2) && p in db
    requires multiset(cs) == multiset(db[p].children)
    ensures Consistent(InstallOrder(db, p, cs), r, Push(log, db), uuid, issued, 2)
  {
    ConsistentParts(db, r, log, uuid, issued);
    PermutedChildrenKeepWellFormed(db, r, p, cs);
    EditKeeps(db, r, log, uuid, issued, InstallOrder(db, p, cs));
  }

  /**
   * The plain add: the grown tree and every snapshot, the orphan one
   * included, are well formed under the ranking that records the new id, and
   * the uuid answers after it stay fresh.
   */
  lemma AddPlainKeeps(db: Tree, r: Ranking, log: Log<Tree>, uuid: nat -> Id, issued: nat, cur: Id, name: string)
    requires Consistent(db, r, log, uuid, issued, 2) && cur in db
    ensures var id := uuid(issued);
      Consistent(WithNewButton(db, cur, id, name), BornNow(r, id), Push(log, WithOrphan(db, cur, id, name)), uuid, issued + 1, 2)
  {
    ConsistentParts(db, r, log, uuid, issued);
    var id := uuid(issued);
    var r2 := BornNow(r, id);
    WithOrphanWellFormed(db, r, cur, id, name);
    WithNewButtonWellFormed(db, r, cur, id, name);
    SnapshotsExtend(log.history, r, r2);
    SnapshotsExtend(log.future, r, r2);
    PushSnapshots(log, WithOrphan(db, cur, id, name), r2);
    PushBounded(log, WithOrphan(db, cur, id, name));
    forall k | issued + 1 <= k
      ensures uuid(k) !in r2.born
    {
      assert uuid(k) != id;
    }
    ConsistentParts(WithNewButton(db, cur, id, name), r2, Push(log, WithOrphan(db, cur, id, name)), uuid, issued + 1);
  }

  /** The copy: a snapshot, then the deep copy of `src` under `cur`, its ids born in the order they were drawn. */
  lemma AddCopyKeeps(db: Tree, r: Ranking, log: Log<Tree>, uuid: nat -> Id, issued: nat, src: Id, cur: Id)
    requires Consistent(db, r, log, uuid, issued, 2) && src in db && cur in db
    ensures Ranked(db, r) && Closed(db) && Injective(uuid)
    ensures forall k :: issued <= k ==> uuid(k) !in db
    ensures var c := CloneTree(db, r, uuid, src, cur, issued);
      && cur in CloneInto(db, r, uuid, src, cur, issued)
      && exists r2 :: Consistent(CloneInto(db, r, uuid, src, cur, issued), r2, Push(log, db), uuid, c.next, 2)
  {
    ConsistentParts(db, r, log, uuid, issued);
    var c := CloneTree(db, r, uuid, src, cur, issued);
    CloneIntoKeepsWellFormed(db, r, uuid, src, cur, issued);
    CloneRankingExtends(r, uuid, issued, c.next);
    var r2 := CloneRanking(r, uuid, issued, c.next);
    PushSnapshots(log, db, r);
    PushBounded(log, db);
    SnapshotsExtend(Push(log, db).history, r, r2);
    SnapshotsExtend(Push(log, db).future, r, r2);
    ConsistentParts(CloneInto(db, r, uuid, src, cur, issued), r2, Push(log, db), uuid, c.next);
    assert Consistent(CloneInto(db, r, uuid, src, cur, issued), r2, Push(log, db), uuid, c.next, 2);
  }

  /** An undo installs a well-formed snapshot holding the root, and the log stays consistent. */
  lemma UndoKeeps(db: Tree, r: Ranking, log: Log<Tree>, uuid: nat -> Id, issued: nat)
    requires Consistent(db, r, log, uuid, issued, 2) && log.history != []
    ensures var (back, l) := UndoLog.Undo(log, db).value;
      Root in back && Consistent(back, r, l, uuid, issued, 2)
  {
    ConsistentParts(db, r, log, uuid, issued);
    UndoBounded(log, db);
    PopSnapshot(log.history, log.future, db, r);
    var (back, l) := UndoLog.Undo(log, db).value;
    ConsistentParts(back, r, l, uuid, issued);
  }

  /** The mirror image for redo. */
  lemma RedoKeeps(db: Tree, r: Ranking, log: Log<Tree>, uuid: nat -> Id, issued: nat)
    requires Consistent(db, r, log, uuid, issued, 2) && log.future != []
    ensures var (next, l) := UndoLog.Redo(log, db).value;
      Root in next && Consistent(next, r, l, uuid, issued, 2)
  {
    ConsistentParts(db, r, log, uuid, issued);
    RedoBounded(log, db);
    PopSnapshot(log.future, log.history, db, r);
    var (next, l) := UndoLog.Redo(log, db).value;
    ConsistentParts(next, r, l, uuid, issued);
  }

  /** Dropping the log keeps the rest. */
  lemma ClearedKeeps(db: Tree, r: Ranking, log: Log<Tree>, uuid: nat -> Id, issued: nat)
    requires Consistent(db, r, log, uuid, issued, 2)
    ensures Consistent(db, r, Cleared(), uuid, issued, 2)
  {
    ConsistentParts(db, r, log, uuid, issued);
    ConsistentParts(db, r, Cleared(), uuid, issued);
  }

  /** So does installing, with the log dropped, a well-formed tree whose ranking leaves the uuid answers fresh. */
  lemma ImportKeeps(db: Tree, r: Ranking, log: Log<Tree>, uuid: nat -> Id, issued: nat, d: Tree, r2: Ranking)
    requires Consistent(db, r, log, uuid, issued, 2)
    requires WellFormed(d, r2) && FreshFrom(uuid, r2, issued)
    ensures Consistent(d, r2, Cleared(), uuid, issued, 2)
  {
    ConsistentParts(db, r, log, uuid, issued);
    ConsistentParts(d, r2, Cleared(), uuid, issued);
  }

  /** The handlers search the children of a node by label: they are all keys of the tree. */
  lemma ChildrenListed(db: Tree, r: Ranking, log: Log<Tree>, uuid: nat -> Id, issued: nat, p: Id)
    requires Consistent(db, r, log, uuid, issued, 2) && p in db
    ensures forall i :: 0 <= i < |db[p].children| ==> db[p].children[i] in db
  {
    ConsistentParts(db, r, log, uuid, issued);
  }

  /** The ids still to place are among the children, so all of them are keys of the tree. */
  lemma RemainingListed(db: Tree, kids: seq<Id>, remaining: seq<Id>, chosen: seq<Id>)
    requires forall i :: 0 <= i < |kids| ==> kids[i] in db
    requires multiset(remaining) + multiset(chosen) == multiset(kids)
    ensures forall i :: 0 <= i < |remaining| ==> remaining[i] in db
  {
    forall i | 0 <= i < |remaining|
      ensures remaining[i] in db
    {
      assert remaining[i] in multiset(kids);
    }
  }

  /** Moving one remaining id to the end of the chosen order keeps the ids of the dialogue. */
  lemma MoveKeepsIds(remaining: seq<Id>, chosen: seq<Id>, x: Id)
    requires x in remaining
    ensures multiset(RemoveFirst(remaining, x)) + multiset(chosen + [x]) == multiset(remaining) + multiset(chosen)
  {
    RemoveFirstFacts(remaining, x);
  }

  /** The reorder dialogue: still running, the ids left to place, and the order chosen so far. */
  datatype Reorder = Reorder(active: bool, remaining: seq<Id>, chosen: seq<Id>)

  const Idle: Reorder := Reorder(false, [], [])

  /** The dialogue's ids, placed or not, are exactly `kids`. */
  predicate Tracks(d: Reorder, kids: seq<Id>) {
    multiset(d.remaining) + multiset(d.chosen) == multiset(kids)
  }

  /** What one "🔀 <name>" press does to a running dialogue. */
  datatype ChoiceOutcome = Ignored | Moved(next: Reorder) | Finished(order: seq<Id>)

  /**
   * One reorder choice: the first remaining id whose label "🔀 <name>" is the
   * text moves to the end of the chosen order.  No match, or a match on the
   * id "" (which `if selected_id:` reads as none), changes nothing; when the
   * last id has moved, the chosen order is the result.
   */
  function ApplyChoice(db: Tree, d: Reorder, text: string): (o: ChoiceOutcome)
    requires forall i :: 0 <= i < |d.remaining| ==> d.remaining[i] in db
    ensures o.Ignored? && "" !in d.remaining ==>
      forall i :: 0 <= i < |d.remaining| ==> ReorderPrefix + db[d.remaining[i]].name != text
    ensures !o.Ignored? ==>
      var placed := if o.Moved? then o.next.chosen else o.order;
      && |placed| == |d.chosen| + 1 && placed[..|d.chosen|] == d.chosen
      && var x := placed[|d.chosen|];
        && x != "" && x in d.remaining && ReorderPrefix + db[x].name == text
        && (forall j :: 0 <= j < IndexOf(d.remaining, x) ==> ReorderPrefix + db[d.remaining[j]].name != text)
        && multiset(placed) + multiset(RemoveFirst(d.remaining, x)) == multiset(d.remaining) + multiset(d.chosen)
        && (o.Moved? ==> o.next.active && o.next.remaining == RemoveFirst(d.remaining, x) != [])
        && (o.Finished? ==> RemoveFirst(d.remaining, x) == [])
  {
    match FirstLabelled(db, d.remaining, ReorderPrefix, text)
    case None => Ignored
    case Some(i) =>
      var x := d.remaining[i];
      if x == "" then Ignored
      else
        MoveKeepsIds(d.remaining, d.chosen, x);
        assert (d.chosen + [x])[..|d.chosen|] == d.chosen;
        if RemoveFirst(d.remaining, x) != [] then Moved(Reorder(true, RemoveFirst(d.remaining, x), d.chosen + [x]))
        else Finished(d.chosen + [x])
  }

  // ---------------------------------------------------------------------------
  // The session
  // ---------------------------------------------------------------------------

  class Session {
    /** The stored tree (database.json). */
    var db: Tree
    /** admin_history and admin_future. */
    var history: seq<Tree>
    var future: seq<Tree>
    /** current_node. */
    var current: Id
    /** temp_content: the items collected since "➕ افزودن محتوا". */
    var pending: seq<Item>
    /** rename_target. */
    var renameTarget: Option<Id>
    /** reorder_mode, reorder_remaining and reorder_result. */
    var reorder: Reorder
    /** uuid.uuid4(), as a fixed sequence of answers, and the number of answers used so far. */
    const uuid: nat -> Id
    var issued: nat
    /** Birth order of every id the session has ever held. */
    ghost var rank: Ranking

    ghost predicate Valid()
      reads this
    {
      && Consistent(db, rank, Log(history, future), uuid, issued, 2) && current in db
      && (reorder.active ==> reorder.remaining != [])
    }

    /** A first run: load_db finds no database file and creates the lone root. */
    constructor (uuid: nat -> Id)
      requires Injective(uuid) && forall k :: uuid(k) != Root
      ensures Valid()
      ensures db == InitialTree() && history == [] && future == [] && current == Root
      ensures pending == [] && renameTarget == None && reorder == Idle && issued == 0
    {
      db := InitialTree();
      history := [];
      future := [];
      current := Root;
      pending := [];
      renameTarget := None;
      reorder := Idle;
      this.uuid := uuid;
      issued := 0;
      rank := Ranking(map[Root := 0], 1);
      InitialConsistent(uuid);
    }

    /** push_admin_history(context, db). */
    method PushHistory()
      modifies this`history, this`future
      ensures Log(history, future) == Push(Log(old(history), old(future)), db)
    {
      history := history + [db];
      if |history| > MaxHistory {
        history := history[1..];
      }
      future := [];
    }

    /**
     * The "❌ حذف <name>" branch: the first child of the current node with that
     * name is unlisted, and its subtree deleted, after a snapshot; with no such
     * child, or when that child's id is "" (which `if target_id:` reads as
     * none), nothing changes and no snapshot is taken.
     */
    method DeleteButton(text: string)
      requires Valid() && DeletePrefix <= text
      modifies this`db, this`history, this`future
      ensures Valid()
      ensures var kids := old(db)[current].children;
        match FirstLabelled(old(db), kids, [], ReplaceAll(text, DeletePrefix, []))
        case None => db == old(db) && history == old(history) && future == old(future)
        case Some(i) =>
          if kids[i] == "" then db == old(db) && history == old(history) && future == old(future)
          else
            && db == Detach(old(db), current, kids[i]) - Subtree(old(db), old(rank), kids[i])
            && Log(history, future) == Push(Log(old(history), old(future)), old(db))
    {
      var name := ReplaceAll(text, DeletePrefix, []);
      ChildrenListed(db, rank, Log(history, future), uuid, issued, current);
      var kids := db[current].children;
      var found := FindLabel(db, kids, [], name);
      if found.Some? && kids[found.value] != "" {
        DeleteChild(kids[found.value]);
      }
    }

    /** A snapshot, then `children.remove(target)` on the current node and delete_node_recursive(db, target). */
    method DeleteChild(target: Id)
      requires Valid() && target in db[current].children
      modifies this`db, this`history, this`future
      ensures Valid()
      ensures db == Detach(old(db), current, target) - Subtree(old(db), old(rank), target)
      ensures Log(history, future) == Push(Log(old(history), old(future)), old(db))
    {
      DeleteKeeps(db, rank, Log(history, future), uuid, issued, current, target);
      var d := Detach(db, current, target);
      d := DeleteNodeRecursive(d, rank, target);
      Store(d);
    }

    /** The "🧹 حذف محتوای صفحه" branch: a snapshot, then the current node's contents are emptied. */
    method ClearContents()
      requires Valid()
      modifies this`db, this`history, this`future
      ensures Valid()
      ensures db == old(db)[current := old(db)[current].(contents := [])]
      ensures Log(history, future) == Push(Log(old(history), old(future)), old(db))
    {
      RecordEditKeeps(db, rank, Log(history, future), uuid, issued, current, db[current].(contents := []));
      Store(db[current := db[current].(contents := [])]);
    }

    /** "➕ افزودن محتوا": collection starts afresh. */
    method StartContent()
      requires Valid()
      modifies this`pending
      ensures Valid() && pending == []
    {
      pending := [];
    }

    /** receive_content: one more collected item. */
    method Collect(item: Item)
      requires Valid()
      modifies this`pending
      ensures Valid() && pending == old(pending) + [item]
    {
      pending := pending + [item];
    }

    /**
     * "✅ ثبت نهایی": with items collected, a snapshot, then the items are
     * appended to the current node's contents; with none, nothing changes.
     */
    method FinalizeContent()
      requires Valid()
      modifies this`db, this`history, this`future
      ensures Valid()
      ensures old(pending) == [] ==> db == old(db) && history == old(history) && future == old(future)
      ensures old(pending) != [] ==>
        && db == old(db)[current := old(db)[current].(contents := old(db)[current].contents + old(pending))]
        && Log(history, future) == Push(Log(old(history), old(future)), old(db))
    {
      if pending != [] {
        RecordEditKeeps(db, rank, Log(history, future), uuid, issued, current, db[current].(contents := db[current].contents + pending));
        Store(db[current := db[current].(contents := db[current].contents + pending)]);
      }
    }

    /** The "✏️ <name>" branch: the first child with that name becomes the rename target. */
    method PickRenameTarget(text: string)
      requires Valid() && RenamePrefix <= text
      modifies this`renameTarget
      ensures Valid()
      ensures var kids := db[current].children;
        match FirstLabelled(db, kids, [], ReplaceAll(text, RenamePrefix, []))
        case None => renameTarget == old(renameTarget)
        case Some(i) => renameTarget == Some(kids[i])
    {
      ChildrenListed(db, rank, Log(history, future), uuid, issued, current);
      var kids := db[current].children;
      var found := FindLabel(db, kids, [], ReplaceAll(text, RenamePrefix, []));
      if found.Some? {
        renameTarget := Some(kids[found.value]);
      }
    }

    /**
     * rename_button: unless the text is the cancel label, a rename target that
     * still exists gets the text as its name, after a snapshot.
     */
    method Rename(text: string)
      requires Valid()
      modifies this`db, this`history, this`future
      ensures Valid()
      ensures if text != Cancel && renameTarget.Some? && renameTarget.value in old(db) then
          && db == old(db)[renameTarget.value := old(db)[renameTarget.value].(name := text)]
          && Log(history, future) == Push(Log(old(history), old(future)), old(db))
        else db == old(db) && history == old(history) && future == old(future)
    {
      if text == Cancel {
        return;
      }
      if renameTarget.Some? && renameTarget.value in db {
        var t := renameTarget.value;
        RecordEditKeeps(db, rank, Log(history, future), uuid, issued, t, db[t].(name := text));
        Store(db[t := db[t].(name := text)]);
      }
    }

    /**
     * The "🔑 <name>" branch: for the first child with that name, its id
     * escaped for MarkdownV2 (the text shown in the reply); None when no child
     * has that name.
     */
    method HashOf(text: string) returns (r: Option<string>)
      requires Valid() && HashPrefix <= text
      ensures var kids := db[current].children;
        match FirstLabelled(db, kids, [], ReplaceAll(text, HashPrefix, []))
        case None => r == None
        case Some(i) => r == Some(Escaped(kids[i]))
    {
      ChildrenListed(db, rank, Log(history, future), uuid, issued, current);
      var kids := db[current].children;
      var found := FindLabel(db, kids, [], ReplaceAll(text, HashPrefix, []));
      if found.Some? {
        var escaped := EscapeMd(kids[found.value]);
        r := Some(escaped);
      } else {
        r := None;
      }
    }

    /**
     * add_button_name: the cancel label does nothing; an existing id gets a
     * deep copy under the current node (snapshot first); any other text
     * becomes a new empty button under the current node, whose snapshot is
     * taken after the new record is stored.
     */
    method AddButton(text: string)
      requires Valid()
      modifies this`db, this`history, this`future, this`issued, this`rank
      ensures Valid()
      ensures text == Cancel ==> db == old(db) && history == old(history) && future == old(future)
      ensures text != Cancel && IsValidNodeId(text, old(db)) ==>
        && db == CloneInto(old(db), old(rank), uuid, text, current, old(issued))
        && Log(history, future) == Push(Log(old(history), old(future)), old(db))
      ensures text != Cancel && !IsValidNodeId(text, old(db)) ==>
        && issued == old(issued) + 1
        && db == WithNewButton(old(db), current, uuid(old(issued)), text)
        && Log(history, future) == Push(Log(old(history), old(future)), WithOrphan(old(db), current, uuid(old(issued)), text))
    {
      if text == Cancel {
        return;
      }
      if IsValidNodeId(text, db) {
        AddCopy(text);
      } else {
        AddPlain(text);
      }
    }

    /** The copy branch of add_button: a snapshot, then a deep copy of `src` under the current node. */
    method AddCopy(src: Id)
      requires Valid() && src in db
      modifies this`db, this`history, this`future, this`issued, this`rank
      ensures Valid()
      ensures db == CloneInto(old(db), old(rank), uuid, src, current, old(issued))
      ensures Log(history, future) == Push(Log(old(history), old(future)), old(db))
    {
      var d, next := CopyUnder(db, rank, Log(history, future), issued, uuid, src, current);
      ghost var r2 :| Consistent(d, r2, Push(Log(history, future), db), uuid, next, 2);
      Replace(d, next, r2);
    }

    /** A snapshot of the tree, then `d` in its place, with the uuid answers it used and the ranking that orders it. */
    method Replace(d: Tree, next: nat, ghost r2: Ranking)
      requires Consistent(d, r2, Push(Log(history, future), db), uuid, next, 2) && current in d
      requires reorder.active ==> reorder.remaining != []
      modifies this`db, this`history, this`future, this`issued, this`rank
      ensures Valid()
      ensures db == d && issued == next && rank == r2
      ensures Log(history, future) == Push(Log(old(history), old(future)), old(db))
    {
      issued, rank := next, r2;
      Store(d);
    }

    /** push_admin_history, then `d` saved in place of the tree. */
    method Store(d: Tree)
      requires Consistent(d, rank, Push(Log(history, future), db), uuid, issued, 2) && current in d
      requires reorder.active ==> reorder.remaining != []
      modifies this`db, this`history, this`future
      ensures Valid() && db == d
      ensures Log(history, future) == Push(Log(old(history), old(future)), old(db))
    {
      PushHistory();
      db := d;
    }

    /**
     * The plain branch of add_button: a new record under a fresh id is stored,
     * the snapshot is taken while it is still unlisted, and then it is listed
     * last among the current node's children.
     */
    method AddPlain(text: string)
      requires Valid()
      modifies this`db, this`history, this`future, this`issued, this`rank
      ensures Valid()
      ensures issued == old(issued) + 1
      ensures db == WithNewButton(old(db), current, uuid(old(issued)), text)
      ensures Log(history, future) == Push(Log(old(history), old(future)), WithOrphan(old(db), current, uuid(old(issued)), text))
    {
      var newId := uuid(issued);
      AddPlainKeeps(db, rank, Log(history, future), uuid, issued, current, text);
      issued := issued + 1;
      db := db[newId := NewButton(text, current)];
      rank := BornNow(rank, newId);
      Store(db[current := db[current].(children := db[current].children + [newId])]);
    }

    /** "🔀 جابه‌جایی چیدمان": with at least two children, a reorder of them starts. */
    method StartReorder()
      requires Valid()
      modifies this`reorder
      ensures Valid()
      ensures |db[current].children| < 2 ==> reorder == old(reorder)
      ensures |db[current].children| >= 2 ==> reorder == Reorder(true, db[current].children, [])
    {
      var kids := db[current].children;
      if |kids| >= 2 {
        reorder := Reorder(true, kids, []);
      }
    }

    /**
     * The reorder-step branch.  With no dialogue running nothing happens.  A
     * dialogue whose ids are no longer exactly the current node's children is
     * dropped without touching the tree; otherwise the press is one choice.
     */
    method ReorderStep(text: string)
      requires Valid()
      modifies this`db, this`history, this`future, this`reorder
      ensures Valid()
      ensures reorder.active ==> Tracks(reorder, db[current].children)
      ensures !old(reorder.active) || old(reorder.remaining) == [] ==>
        db == old(db) && history == old(history) && future == old(future) && reorder == old(reorder)
      ensures old(reorder.active) && old(reorder.remaining) != [] && !Tracks(old(reorder), old(db)[current].children) ==>
        db == old(db) && history == old(history) && future == old(future) && reorder == Idle
      ensures old(reorder.active) && old(reorder.remaining) != [] && Tracks(old(reorder), old(db)[current].children) ==>
        ChoiceInstalled(old(db), old(history), old(future), old(reorder), text)
    {
      if !reorder.active || reorder.remaining == [] {
        return;
      }
      if !Tracks(reorder, db[current].children) {
        reorder := Idle;
        return;
      }
      Choose(text);
    }

    /**
     * The state one choice leaves, against the tree, log and dialogue it was
     * made on: an ignored press changes nothing, a move keeps tree and log and
     * continues the dialogue, and the last move installs the chosen order
     * after a snapshot and ends the dialogue.
     */
    ghost predicate ChoiceInstalled(db0: Tree, history0: seq<Tree>, future0: seq<Tree>, d: Reorder, text: string)
      reads this
    {
      && (forall i :: 0 <= i < |d.remaining| ==> d.remaining[i] in db0)
      && current in db0
      && match ApplyChoice(db0, d, text)
         case Ignored => db == db0 && history == history0 && future == future0 && reorder == d
         case Moved(next) => db == db0 && history == history0 && future == future0 && reorder == next
         case Finished(order) =>
           && db == InstallOrder(db0, current, order)
           && Log(history, future) == Push(Log(history0, future0), db0)
           && reorder == Idle
    }

    /** A reorder choice against a dialogue whose ids are exactly the current node's children. */
    method Choose(text: string)
      requires Valid() && reorder.active && Tracks(reorder, db[current].children)
      modifies this`db, this`history, this`future, this`reorder
      ensures Valid()
      ensures reorder.active ==> Tracks(reorder, db[current].children)
      ensures ChoiceInstalled(old(db), old(history), old(future), old(reorder), text)
    {
      ChildrenListed(db, rank, Log(history, future), uuid, issued, current);
      RemainingListed(db, db[current].children, reorder.remaining, reorder.chosen);
      var remaining, chosen := reorder.remaining, reorder.chosen;
      var found := FindLabel(db, remaining, ReorderPrefix, text);
      if found.None? || remaining[found.value] == "" {
        return;
      }
      var selected := remaining[found.value];
      MoveKeepsIds(remaining, chosen, selected);
      remaining := RemoveFirst(remaining, selected);
      chosen := chosen + [selected];
      if remaining != [] {
        reorder := Reorder(true, remaining, chosen);
        return;
      }
      InstallChosen(chosen);
    }

    /** The last reorder choice: a snapshot, the chosen order becomes the current node's children, and the dialogue ends. */
    method InstallChosen(chosen: seq<Id>)
      requires Valid() && multiset(chosen) == multiset(db[current].children)
      modifies this`db, this`history, this`future, this`reorder
      ensures Valid()
      ensures db == InstallOrder(old(db), current, chosen)
      ensures Log(history, future) == Push(Log(old(history), old(future)), old(db))
      ensures reorder == Idle
    {
      ReorderKeeps(db, rank, Log(history, future), uuid, issued, current, chosen);
      reorder := Idle;
      Store(InstallOrder(db, current, chosen));
    }

    /**
     * "↩️": with no snapshot nothing changes; otherwise the current tree goes
     * to the redo list, the newest snapshot is installed, and the admin is
     * sent to the root.
     */
    method Undo()
      requires Valid()
      modifies this`db, this`history, this`future, this`current
      ensures Valid()
      ensures match UndoLog.Undo(Log(old(history), old(future)), old(db))
        case None => db == old(db) && history == old(history) && future == old(future) && current == old(current)
        case Some(p) => db == p.0 && Log(history, future) == p.1 && current == Root
    {
      if history == [] {
        return;
      }
      var n := |history| - 1;
      UndoKeeps(db, rank, Log(history, future), uuid, issued);
      future := future + [db];
      db := history[n];
      history := history[..n];
      current := Root;
    }

    /** "↪️": the mirror image of undo; its append to the history checks no bound. */
    method Redo()
      requires Valid()
      modifies this`db, this`history, this`future, this`current
      ensures Valid()
      ensures match UndoLog.Redo(Log(old(history), old(future)), old(db))
        case None => db == old(db) && history == old(history) && future == old(future) && current == old(current)
        case Some(p) => db == p.0 && Log(history, future) == p.1 && current == Root
    {
      if future == [] {
        return;
      }
      var n := |future| - 1;
      RedoKeeps(db, rank, Log(history, future), uuid, issued);
      history := history + [db];
      db := future[n];
      future := future[..n];
      current := Root;
    }

    /**
     * restore_backup after the new database file is written: both lists are
     * dropped and the admin is sent to the root.  `imported` is the tree the
     * backup holds and `r` a birth order for it.
     */
    method ImportBackup(imported: Tree, ghost r: Ranking)
      requires Valid() && WellFormed(imported, r) && FreshFrom(uuid, r, issued)
      modifies this`db, this`history, this`future, this`rank, this`current
      ensures Valid()
      ensures db == imported && Log(history, future) == Cleared() && current == Root
    {
      ImportKeeps(db, rank, Log(history, future), uuid, issued, imported, r);
      db := imported;
      rank := r;
      history := [];
      future := [];
      current := Root;
    }

    /**
     * /start: user_data is cleared, which drops the undo/redo log and every
     * dialogue; the admin lands on the node the payload names when it exists,
     * otherwise on the root.
     */
    method Start(payload: Option<string>)
      requires Valid()
      modifies this`history, this`future, this`pending, this`renameTarget, this`reorder, this`current
      ensures Valid()
      ensures history == [] && future == [] && pending == [] && renameTarget == None && reorder == Idle
      ensures current == if payload.Some? && payload.value in db then payload.value else Root
    {
      ClearedKeeps(db, rank, Log(history, future), uuid, issued);
      history := [];
      future := [];
      pending := [];
      renameTarget := None;
      reorder := Idle;
      if payload.Some? && payload.value in db {
        current := payload.value;
      } else {
        current := Root;
      }
    }
  }
}
