/**
 * The button tree of the bot: the dictionary from node id to node record kept in
 * database.json (main.py:90-102), the shape every stored tree keeps, and the pure
 * specifications of the two recursive operations on it, the subtree delete
 * (main.py:25-36) and the deep copy made by clone_node (main.py:895-910).
 */
module ButtonTree {
  import opened Wrappers

  type Id = string

  /** One stored content entry: a dictionary such as {type, file_id, caption, format}. */
  type Item = map<string, string>

  /** A node record {name, parent, children, contents}. */
  datatype Node = Node(name: string, parent: Option<Id>, children: seq<Id>, contents: seq<Item>)

  type Tree = map<Id, Node>

  const Root: Id := "root"
  const RootName: string := "خانه"

  /** The tree load_db creates when no database file exists: a lone root node. */
  function InitialTree(): Tree {
    map[Root := Node(RootName, None, [], [])]
  }

  // ---------------------------------------------------------------------------
  // Well-formedness
  // ---------------------------------------------------------------------------

  /**
   * Birth order of ids: `born[x]` is the instant node `x` was created, and every
   * birth is before `clock`. It exists only in the proof: it is what makes the
   * recursion of delete_node_recursive and clone_node terminate.
   */
  datatype Ranking = Ranking(born: map<Id, nat>, clock: nat)

  /** Every node is younger than its parent, so no id is its own ancestor. */
  ghost predicate Ranked(db: Tree, r: Ranking) {
    && (forall k :: k in db ==> k in r.born && r.born[k] < r.clock)
    && (forall k, c :: k in db && c in db && c in db[k].children ==> r.born[k] < r.born[c])
  }

  /** Every id in a children list is a key of the tree (no dangling reference). */
  predicate Closed(db: Tree) {
    forall k, c :: k in db && c in db[k].children ==> c in db
  }

  /** A node listed as a child of `k` records `k` as its parent. */
  predicate ParentsAgree(db: Tree) {
    forall k, c :: k in db && c in db[k].children && c in db ==> db[c].parent == Some(k)
  }

  predicate NoDuplicates(s: seq<Id>) {
    forall i, j :: 0 <= i < j < |s| ==> s[i] != s[j]
  }

  predicate DistinctChildren(db: Tree) {
    forall k :: k in db ==> NoDuplicates(db[k].children)
  }

  /**
   * The shape every tree the bot stores keeps: the parentless root is present,
   * children lists name existing nodes whose parent field agrees, no list
   * repeats an id, and parents are older than their children. Together these
   * say that a node is listed under at most one parent, and at most once.
   */
  ghost predicate WellFormed(db: Tree, r: Ranking) {
    && Root in db && db[Root].parent == None
    && Closed(db) && ParentsAgree(db) && DistinctChildren(db) && Ranked(db, r)
  }

  lemma RankedSubmap(db: Tree, s: set<Id>, r: Ranking)
    requires Ranked(db, r)
    ensures Ranked(db - s, r)
  {
  }

  // ---------------------------------------------------------------------------
  // Subtrees and reachability
  // ---------------------------------------------------------------------------

  /** The ids delete_node_recursive removes: `id` and every key below it. */
  ghost function Subtree(db: Tree, r: Ranking, id: Id): set<Id>
    requires Ranked(db, r)
    decreases if id in db then r.clock - r.born[id] else 0
  {
    if id !in db then {}
    else {id} + (set c, x | c in db[id].children && x in Subtree(db, r, c) :: x)
  }

  /** The union of the subtrees under the ids of `cs`. */
  ghost function Below(db: Tree, r: Ranking, cs: seq<Id>): set<Id>
    requires Ranked(db, r)
  {
    set c, x | c in cs && x in Subtree(db, r, c) :: x
  }

  /** `p` is a walk down children edges through keys of `db`. */
  ghost predicate IsPath(db: Tree, p: seq<Id>) {
    && |p| > 0
    && (forall i :: 0 <= i < |p| ==> p[i] in db)
    && (forall i :: 0 <= i < |p| - 1 ==> p[i + 1] in db[p[i]].children)
  }

  ghost predicate Reaches(db: Tree, a: Id, b: Id) {
    exists p :: IsPath(db, p) && p[0] == a && p[|p| - 1] == b
  }

  lemma {:induction false} SubtreeHasPath(db: Tree, r: Ranking, id: Id, x: Id)
    requires Ranked(db, r) && x in Subtree(db, r, id)
    ensures Reaches(db, id, x)
    decreases if id in db then r.clock - r.born[id] else 0
  {
    if x == id {
      assert IsPath(db, [id]);
    } else {
      var c :| c in db[id].children && x in Subtree(db, r, c);
      SubtreeHasPath(db, r, c, x);
      var q :| IsPath(db, q) && q[0] == c && q[|q| - 1] == x;
      ConsPath(db, id, q);
    }
  }

  lemma ConsPath(db: Tree, id: Id, q: seq<Id>)
    requires IsPath(db, q) && id in db && q[0] in db[id].children
    ensures IsPath(db, [id] + q) && ([id] + q)[|q|] == q[|q| - 1]
  {
    var p := [id] + q;
    assert forall i :: 0 <= i < |p| - 1 ==> p[i + 1] == q[i];
  }

  lemma {:induction false} PathInSubtree(db: Tree, r: Ranking, p: seq<Id>)
    requires Ranked(db, r) && IsPath(db, p)
    ensures p[|p| - 1] in Subtree(db, r, p[0])
    decreases |p|
  {
    if |p| > 1 {
      var q := p[1..];
      assert IsPath(db, q);
      PathInSubtree(db, r, q);
      assert p[1] in db[p[0]].children;
    }
  }

  /** Subtree, defined by recursion, is exactly the set of ids reachable by a path. */
  lemma SubtreeIsReachable(db: Tree, r: Ranking, id: Id, x: Id)
    requires Ranked(db, r)
    ensures x in Subtree(db, r, id) <==> Reaches(db, id, x)
  {
    if x in Subtree(db, r, id) {
      SubtreeHasPath(db, r, id, x);
    }
    if Reaches(db, id, x) {
      var p :| IsPath(db, p) && p[0] == id && p[|p| - 1] == x;
      PathInSubtree(db, r, p);
    }
  }

  lemma {:induction false} PathBorn(db: Tree, r: Ranking, p: seq<Id>)
    requires Ranked(db, r) && IsPath(db, p)
    ensures forall i :: 0 <= i < |p| ==> r.born[p[0]] <= r.born[p[i]]
    decreases |p|
  {
    if |p| > 1 {
      var q := p[..|p| - 1];
      assert IsPath(db, q);
      PathBorn(db, r, q);
      assert p[|p| - 1] in db[p[|p| - 2]].children;
    }
  }

  /** Everything in the subtree under `id` is at least as young as `id`. */
  lemma SubtreeBorn(db: Tree, r: Ranking, id: Id, x: Id)
    requires Ranked(db, r) && x in Subtree(db, r, id)
    ensures id in db && x in db && r.born[id] <= r.born[x]
  {
    SubtreeHasPath(db, r, id, x);
    var p :| IsPath(db, p) && p[0] == id && p[|p| - 1] == x;
    PathBorn(db, r, p);
  }

  /** A subtree contains the existing children of each of its members. */
  lemma SubtreeDownClosed(db: Tree, r: Ranking, id: Id, x: Id, c: Id)
    requires Ranked(db, r) && x in Subtree(db, r, id) && x in db && c in db && c in db[x].children
    ensures c in Subtree(db, r, id)
  {
    SubtreeHasPath(db, r, id, x);
    var p :| IsPath(db, p) && p[0] == id && p[|p| - 1] == x;
    var q := p + [c];
    assert forall i :: 0 <= i < |p| ==> q[i] == p[i];
    assert IsPath(db, q);
    PathInSubtree(db, r, q);
  }

  /** Every member of a subtree other than its top is listed as a child of another member. */
  lemma SubtreeMemberHasParent(db: Tree, r: Ranking, id: Id, x: Id) returns (q: Id)
    requires Ranked(db, r) && x in Subtree(db, r, id) && x != id
    ensures q in Subtree(db, r, id) && q in db && x in db[q].children
  {
    SubtreeHasPath(db, r, id, x);
    var p :| IsPath(db, p) && p[0] == id && p[|p| - 1] == x;
    var pre := p[..|p| - 1];
    assert IsPath(db, pre);
    PathInSubtree(db, r, pre);
    q := pre[|pre| - 1];
  }

  ghost predicate DownClosed(db: Tree, s: set<Id>) {
    forall x, c :: x in s && x in db && c in db[x].children && c in db ==> c in s
  }

  lemma {:induction false} PathAvoids(db: Tree, s: set<Id>, p: seq<Id>)
    requires DownClosed(db, s) && IsPath(db, p) && p[|p| - 1] !in s
    ensures forall i :: 0 <= i < |p| ==> p[i] !in s
    decreases |p|
  {
    if |p| > 1 {
      var q := p[1..];
      assert IsPath(db, q);
      PathAvoids(db, s, q);
      assert p[1] in db[p[0]].children;
    }
  }

  /**
   * Deleting a set closed under children does not change what else is below a
   * node: the subtree in the smaller tree is the old subtree minus that set.
   */
  lemma SubtreeAfterRemoval(db: Tree, r: Ranking, s: set<Id>, id: Id)
    requires Ranked(db, r) && DownClosed(db, s)
    ensures Ranked(db - s, r)
    ensures Subtree(db - s, r, id) == Subtree(db, r, id) - s
  {
    RankedSubmap(db, s, r);
    forall x ensures x in Subtree(db - s, r, id) <==> x in Subtree(db, r, id) - s {
      SubtreeIsReachable(db - s, r, id, x);
      SubtreeIsReachable(db, r, id, x);
      if Reaches(db - s, id, x) {
        var p :| IsPath(db - s, p) && p[0] == id && p[|p| - 1] == x;
        assert IsPath(db, p);
      }
      if Reaches(db, id, x) && x !in s {
        var p :| IsPath(db, p) && p[0] == id && p[|p| - 1] == x;
        PathAvoids(db, s, p);
        assert IsPath(db - s, p);
      }
    }
  }

  lemma SubtreeIsDownClosed(db: Tree, r: Ranking, cs: seq<Id>)
    requires Ranked(db, r)
    ensures DownClosed(db, Below(db, r, cs))
  {
    forall x, c | x in Below(db, r, cs) && x in db && c in db[x].children && c in db
      ensures c in Below(db, r, cs)
    {
      var t :| t in cs && x in Subtree(db, r, t);
      SubtreeDownClosed(db, r, t, x, c);
    }
  }

  /** A path starting below `p` in age never visits `p`, so it survives a rewrite of `p`. */
  lemma PathMissesOlder(a: Tree, b: Tree, r: Ranking, p: Id, q: seq<Id>)
    requires Ranked(a, r) && IsPath(a, q) && p in a && r.born[p] < r.born[q[0]]
    requires forall k :: k in a && k != p ==> k in b && b[k] == a[k]
    ensures IsPath(b, q)
  {
    PathBorn(a, r, q);
    assert forall i :: 0 <= i < |q| ==> q[i] != p;
  }

  /**
   * The subtree under a node is unaffected by rewriting the record of an older
   * node: no path down from `id` passes through it.
   */
  lemma SubtreeIgnoresOlder(db: Tree, r: Ranking, p: Id, n: Node, id: Id)
    requires Ranked(db, r) && Ranked(db[p := n], r) && p in db
    requires id in db && r.born[p] < r.born[id]
    ensures Subtree(db[p := n], r, id) == Subtree(db, r, id)
  {
    var d := db[p := n];
    forall x ensures x in Subtree(d, r, id) <==> x in Subtree(db, r, id) {
      SubtreeIsReachable(d, r, id, x);
      SubtreeIsReachable(db, r, id, x);
      if Reaches(d, id, x) {
        var q :| IsPath(d, q) && q[0] == id && q[|q| - 1] == x;
        PathMissesOlder(d, db, r, p, q);
      }
      if Reaches(db, id, x) {
        var q :| IsPath(db, q) && q[0] == id && q[|q| - 1] == x;
        PathMissesOlder(db, d, r, p, q);
      }
    }
  }

  // ---------------------------------------------------------------------------
  // Editing a children list
  // ---------------------------------------------------------------------------

  function IndexOf(s: seq<Id>, x: Id): (i: nat)
    requires x in s
    ensures i < |s| && s[i] == x && x !in s[..i]
  {
    if s[0] == x then 0 else 1 + IndexOf(s[1..], x)
  }

  /** Python's `list.remove(x)`: drops the first occurrence of `x`. */
  function RemoveFirst(s: seq<Id>, x: Id): (t: seq<Id>)
    requires x in s
  {
    var i := IndexOf(s, x);
    s[..i] + s[i + 1..]
  }

  /** Python's `list.remove(x)` removes one occurrence of `x` and keeps a list without repeats free of them. */
  lemma RemoveFirstFacts(s: seq<Id>, x: Id)
    requires x in s
    ensures multiset(RemoveFirst(s, x)) == multiset(s) - multiset{x}
    ensures NoDuplicates(s) ==> NoDuplicates(RemoveFirst(s, x)) && x !in RemoveFirst(s, x)
  {
    RemoveFirstCount(s, x);
    if NoDuplicates(s) {
      RemoveFirstDistinct(s, x);
    }
  }

  lemma RemoveFirstCount(s: seq<Id>, x: Id)
    requires x in s
    ensures multiset(RemoveFirst(s, x)) == multiset(s) - multiset{x}
  {
    var i := IndexOf(s, x);
    assert s == s[..i] + [x] + s[i + 1..];
    calc {
      multiset(s);
      multiset(s[..i]) + multiset{x} + multiset(s[i + 1..]);
    }
  }

  lemma RemoveFirstDistinct(s: seq<Id>, x: Id)
    requires x in s && NoDuplicates(s)
    ensures NoDuplicates(RemoveFirst(s, x)) && x !in RemoveFirst(s, x)
  {
    var i := IndexOf(s, x);
    var t := RemoveFirst(s, x);
    assert forall a :: 0 <= a < |t| ==> t[a] == s[if a < i then a else a + 1];
  }

  lemma NoDuplicatesByCount(s: seq<Id>)
    ensures NoDuplicates(s) <==> forall x :: multiset(s)[x] <= 1
  {
    if NoDuplicates(s) {
      forall x ensures multiset(s)[x] <= 1 {
        NoDuplicatesCount(s, x);
      }
    } else {
      RepeatCounted(s);
    }
  }

  /** A repeated id is counted at least twice. */
  lemma RepeatCounted(s: seq<Id>)
    requires !NoDuplicates(s)
    ensures exists x :: multiset(s)[x] >= 2
  {
    var i, j :| 0 <= i < j < |s| && s[i] == s[j];
    var x := s[i];
    assert s == s[..j] + s[j..];
    assert s[..j][i] == x && s[j..][0] == x;
    assert multiset(s)[x] == multiset(s[..j])[x] + multiset(s[j..])[x];
  }

  lemma {:induction false} NoDuplicatesCount(s: seq<Id>, x: Id)
    requires NoDuplicates(s)
    ensures multiset(s)[x] <= 1
    decreases |s|
  {
    if s != [] {
      assert s == [s[0]] + s[1..];
      NoDuplicatesCount(s[1..], x);
      if s[0] == x {
        assert x !in s[1..];
      }
    }
  }

  /** Installing a permutation of a node's children keeps the tree well formed. */
  lemma PermutedChildrenKeepWellFormed(db: Tree, r: Ranking, p: Id, cs: seq<Id>)
    requires WellFormed(db, r) && p in db
    requires multiset(cs) == multiset(db[p].children)
    ensures WellFormed(db[p := db[p].(children := cs)], r)
  {
    var d := db[p := db[p].(children := cs)];
    forall c ensures c in cs <==> c in db[p].children {
      assert c in cs <==> c in multiset(cs);
    }
    NoDuplicatesByCount(cs);
    NoDuplicatesByCount(db[p].children);
    assert Closed(d);
    assert ParentsAgree(d);
  }

  /** Appending a parentless fresh child under `p`, as a plain add does, keeps the shape. */
  lemma AppendChildKeepsWellFormed(db: Tree, r: Ranking, p: Id, c: Id)
    requires WellFormed(db, r) && p in db && c in db && c != p
    requires db[c].parent == Some(p) && r.born[p] < r.born[c]
    requires forall k :: k in db ==> c !in db[k].children
    ensures WellFormed(db[p := db[p].(children := db[p].children + [c])], r)
  {
    var d := db[p := db[p].(children := db[p].children + [c])];
    assert c !in db[p].children;
    forall k, x | k in d && x in d[k].children ensures x in d && (d[x].parent == Some(k)) {
      if k == p && x == c {
      } else if k == p {
        assert x in db[p].children;
      } else {
        assert x in db[k].children;
      }
    }
    assert Ranked(d, r);
  }

  // ---------------------------------------------------------------------------
  // Deleting a child's subtree
  // ---------------------------------------------------------------------------

  /** The children-list edit of the delete flow: `children.remove(target)` on `p`. */
  function Detach(db: Tree, p: Id, target: Id): Tree
    requires p in db && target in db[p].children
  {
    db[p := db[p].(children := RemoveFirst(db[p].children, target))]
  }

  lemma DetachFacts(db: Tree, r: Ranking, p: Id, target: Id)
    requires WellFormed(db, r) && p in db && target in db[p].children
    ensures var d := Detach(db, p, target);
      && d.Keys == db.Keys
      && (forall k, c :: k in d && c in d[k].children ==> c in db[k].children)
      && target !in d[p].children
      && NoDuplicates(d[p].children)
      && Ranked(d, r)
  {
    var d := Detach(db, p, target);
    RemoveFirstFacts(db[p].children, target);
    forall k, c | k in d && c in d[k].children ensures c in db[k].children {
      if k == p {
        assert c in multiset(d[p].children);
      }
    }
  }

  /** The parent of a child and the root lie outside the child's subtree. */
  lemma SubtreeOfChild(db: Tree, r: Ranking, p: Id, target: Id)
    requires WellFormed(db, r) && p in db && target in db[p].children
    ensures p !in Subtree(db, r, target) && Root !in Subtree(db, r, target)
  {
    var t := Subtree(db, r, target);
    if p in t {
      SubtreeBorn(db, r, target, p);
    }
    if Root in t {
      if Root != target {
        var q := SubtreeMemberHasParent(db, r, target, Root);
      }
    }
  }

  /** After the detach, no surviving children list names a member of the child's subtree. */
  lemma DetachedSubtreeUnreferenced(db: Tree, r: Ranking, p: Id, target: Id, k: Id, c: Id)
    requires WellFormed(db, r) && p in db && target in db[p].children
    requires k in Detach(db, p, target) && k !in Subtree(db, r, target)
    requires c in Detach(db, p, target)[k].children
    ensures c !in Subtree(db, r, target)
  {
    var d := Detach(db, p, target);
    assert c in db[k].children && target !in d[p].children by {
      DetachFacts(db, r, p, target);
    }
    assert db[c].parent == Some(k) && db[target].parent == Some(p);
    assert c != target;
    ListerInSubtree(db, r, target, k, c);
  }

  /** Whoever lists a member of a subtree, other than its top, is in the subtree too. */
  lemma ListerInSubtree(db: Tree, r: Ranking, top: Id, k: Id, x: Id)
    requires WellFormed(db, r) && k in db && x in db[k].children
    ensures x in Subtree(db, r, top) && x != top ==> k in Subtree(db, r, top)
  {
    if x in Subtree(db, r, top) && x != top {
      var q := SubtreeMemberHasParent(db, r, top, x);
      assert db[x].parent == Some(q);
    }
  }

  /**
   * Detaching a child and then deleting its subtree removes exactly the
   * subtree of the child in the original tree, keeps `p` and the root, and
   * leaves a well-formed tree (no surviving list names a deleted id).
   */
  lemma DeleteChildKeepsWellFormed(db: Tree, r: Ranking, p: Id, target: Id)
    requires WellFormed(db, r) && p in db && target in db[p].children
    ensures Subtree(Detach(db, p, target), r, target) == Subtree(db, r, target)
    ensures p !in Subtree(db, r, target) && Root !in Subtree(db, r, target)
    ensures WellFormed(Detach(db, p, target) - Subtree(db, r, target), r)
  {
    var d := Detach(db, p, target);
    DetachFacts(db, r, p, target);
    SubtreeOfChild(db, r, p, target);
    SubtreeIgnoresOlder(db, r, p, d[p], target);
    var t := Subtree(db, r, target);
    var f := d - t;
    forall k, c | k in f && c in f[k].children ensures c in f {
      DetachedSubtreeUnreferenced(db, r, p, target, k, c);
    }
    RankedSubmap(d, t, r);
    assert ParentsAgree(f) by {
      forall k, c | k in f && c in f[k].children && c in f ensures f[c].parent == Some(k) {
        assert c in db[k].children;
      }
    }
  }

  // ---------------------------------------------------------------------------
  // Deep copy
  // ---------------------------------------------------------------------------

  /** The ids the fresh-id oracle hands out for requests `a`, `a + 1`, ..., `b - 1`. */
  ghost function UuidRange(uuid: nat -> Id, a: nat, b: nat): set<Id> {
    set k: nat | a <= k < b :: uuid(k)
  }

  ghost predicate Injective(uuid: nat -> Id) {
    forall i, j :: uuid(i) == uuid(j) ==> i == j
  }

  lemma UuidRangeSplit(uuid: nat -> Id, a: nat, b: nat, c: nat)
    requires a <= b <= c
    ensures UuidRange(uuid, a, b) + UuidRange(uuid, b, c) == UuidRange(uuid, a, c)
  {
    forall x | x in UuidRange(uuid, a, c) ensures x in UuidRange(uuid, a, b) + UuidRange(uuid, b, c) {
      var k: nat :| a <= k < c && uuid(k) == x;
      if k < b {
        assert x in UuidRange(uuid, a, b);
      } else {
        assert x in UuidRange(uuid, b, c);
      }
    }
  }

  lemma UuidRangesDisjoint(uuid: nat -> Id, a: nat, b: nat, c: nat, d: nat)
    requires Injective(uuid) && b <= c
    ensures UuidRange(uuid, a, b) !! UuidRange(uuid, c, d)
  {
  }

  /** What a deep copy produces: the new records, the new ids of the copied roots, and the next oracle request. */
  datatype Copy = Copy(nodes: Tree, roots: seq<Id>, next: nat)

  /**
   * The deep copy clone_node(id, parent) makes when the fresh-id oracle's next
   * answer is `uuid(start)`: ids are drawn in pre-order, the copied node first,
   * and the copies of the children follow in child order.
   */
  ghost function CloneTree(db: Tree, r: Ranking, uuid: nat -> Id, id: Id, parent: Id, start: nat): (c: Copy)
    requires Ranked(db, r) && Closed(db) && id in db
    ensures start < c.next && c.roots == [uuid(start)]
    ensures c.nodes.Keys == UuidRange(uuid, start, c.next)
    decreases r.clock - r.born[id], 1, 0
  {
    var newId := uuid(start);
    var kids := CloneForest(db, r, uuid, db[id].children, newId, start + 1, r.born[id]);
    UuidRangeSplit(uuid, start, start + 1, kids.next);
    assert UuidRange(uuid, start, start + 1) == {newId};
    Copy(kids.nodes[newId := Node(db[id].name, Some(parent), kids.roots, db[id].contents)], [newId], kids.next)
  }

  /** The deep copies of the nodes `cs`, made one after the other, all placed under `parent`. */
  ghost function CloneForest(db: Tree, r: Ranking, uuid: nat -> Id, cs: seq<Id>, parent: Id, start: nat, lvl: nat): (c: Copy)
    requires Ranked(db, r) && Closed(db) && lvl < r.clock
    requires forall x :: x in cs ==> x in db && lvl < r.born[x]
    ensures start <= c.next && |c.roots| == |cs|
    ensures c.nodes.Keys == UuidRange(uuid, start, c.next)
    ensures forall i :: 0 <= i < |cs| ==> c.roots[i] in c.nodes
    decreases r.clock - lvl, 0, |cs|
  {
    if cs == [] then Copy(map[], [], start)
    else
      var front := CloneForest(db, r, uuid, cs[..|cs| - 1], parent, start, lvl);
      var last := CloneTree(db, r, uuid, cs[|cs| - 1], parent, front.next);
      UuidRangeSplit(uuid, start, front.next, last.next);
      Copy(front.nodes + last.nodes, front.roots + last.roots, last.next)
  }

  /** Every children list inside `nodes` names records of `nodes` whose parent field agrees. */
  ghost predicate Linked(nodes: Tree) {
    forall x, y :: x in nodes && y in nodes[x].children ==> y in nodes && nodes[y].parent == Some(x)
  }

  /** No children list inside `nodes` repeats an id. */
  ghost predicate ListsDistinct(nodes: Tree) {
    forall x :: x in nodes ==> NoDuplicates(nodes[x].children)
  }

  /** Within a copy drawn from oracle requests `start` .. `next - 1`, a child is drawn after its parent. */
  ghost predicate DrawnInOrder(nodes: Tree, uuid: nat -> Id, start: nat, next: nat) {
    forall k, j :: start <= k < next && start <= j < next && uuid(k) in nodes && uuid(j) in nodes[uuid(k)].children
      ==> k < j
  }

  /** The copied roots are distinct records of `nodes` placed under `parent`. */
  ghost predicate RootsUnder(nodes: Tree, roots: seq<Id>, parent: Id) {
    && (forall i :: 0 <= i < |roots| ==> roots[i] in nodes && nodes[roots[i]].parent == Some(parent))
    && NoDuplicates(roots)
  }

  /** The shape of a copy drawn from oracle requests `start` .. `c.next - 1`. */
  ghost predicate CopyShaped(c: Copy, uuid: nat -> Id, start: nat, parent: Id) {
    && c.nodes.Keys == UuidRange(uuid, start, c.next)
    && Linked(c.nodes)
    && ListsDistinct(c.nodes)
    && DrawnInOrder(c.nodes, uuid, start, c.next)
    && RootsUnder(c.nodes, c.roots, parent)
  }

  /** A copied node on top of the copies of its children keeps the shape. */
  lemma TreeStepShaped(kids: Copy, uuid: nat -> Id, start: nat, parent: Id, n: Node)
    requires Injective(uuid)
    requires CopyShaped(kids, uuid, start + 1, uuid(start)) && start + 1 <= kids.next
    requires n.parent == Some(parent) && n.children == kids.roots
    ensures CopyShaped(Copy(kids.nodes[uuid(start) := n], [uuid(start)], kids.next), uuid, start, parent)
  {
    var newId := uuid(start);
    assert newId !in kids.nodes;
    UuidRangeSplit(uuid, start, start + 1, kids.next);
    assert UuidRange(uuid, start, start + 1) == {newId};
    TreeStepLinked(kids.nodes, newId, n);
    TreeStepOrdered(kids, uuid, start, n);
  }

  lemma TreeStepLinked(kids: Tree, newId: Id, n: Node)
    requires newId !in kids && Linked(kids) && ListsDistinct(kids) && RootsUnder(kids, n.children, newId)
    ensures Linked(kids[newId := n]) && ListsDistinct(kids[newId := n])
  {
    var nodes := kids[newId := n];
    forall x, y | x in nodes && y in nodes[x].children ensures y in nodes && nodes[y].parent == Some(x) {
      if x == newId {
        var i :| 0 <= i < |n.children| && n.children[i] == y;
      }
    }
  }

  lemma TreeStepOrdered(kids: Copy, uuid: nat -> Id, start: nat, n: Node)
    requires Injective(uuid) && kids.nodes.Keys == UuidRange(uuid, start + 1, kids.next)
    requires DrawnInOrder(kids.nodes, uuid, start + 1, kids.next) && Linked(kids.nodes)
    requires forall y :: y in n.children ==> y in kids.nodes
    ensures DrawnInOrder(kids.nodes[uuid(start) := n], uuid, start, kids.next)
  {
    var nodes := kids.nodes[uuid(start) := n];
    forall k, j | start <= k < kids.next && start <= j < kids.next && uuid(k) in nodes && uuid(j) in nodes[uuid(k)].children
      ensures k < j
    {
      assert uuid(j) in kids.nodes;
      assert uuid(j) in UuidRange(uuid, start + 1, kids.next);
      if k != start {
        assert uuid(k) in kids.nodes;
      }
    }
  }

  /** The copies of a list of siblings followed by the copy of one more keep the shape. */
  lemma ForestStepShaped(front: Copy, last: Copy, uuid: nat -> Id, start: nat, parent: Id)
    requires Injective(uuid) && start <= front.next <= last.next
    requires CopyShaped(front, uuid, start, parent) && CopyShaped(last, uuid, front.next, parent)
    ensures CopyShaped(Copy(front.nodes + last.nodes, front.roots + last.roots, last.next), uuid, start, parent)
  {
    UuidRangeSplit(uuid, start, front.next, last.next);
    UuidRangesDisjoint(uuid, start, front.next, front.next, last.next);
    ForestStepLinked(front.nodes, last.nodes);
    ForestStepOrdered(front, last, uuid, start);
    ForestStepRoots(front, last, parent);
  }

  lemma ForestStepLinked(front: Tree, last: Tree)
    requires front.Keys !! last.Keys
    requires Linked(front) && ListsDistinct(front) && Linked(last) && ListsDistinct(last)
    ensures Linked(front + last) && ListsDistinct(front + last)
  {
    var nodes := front + last;
    forall x, y | x in nodes && y in nodes[x].children ensures y in nodes && nodes[y].parent == Some(x) {
      if x in last {
        assert y in last;
      } else {
        assert y in front;
      }
    }
  }

  lemma ForestStepOrdered(front: Copy, last: Copy, uuid: nat -> Id, start: nat)
    requires Injective(uuid) && start <= front.next <= last.next
    requires front.nodes.Keys == UuidRange(uuid, start, front.next) && Linked(front.nodes)
    requires last.nodes.Keys == UuidRange(uuid, front.next, last.next) && Linked(last.nodes)
    requires DrawnInOrder(front.nodes, uuid, start, front.next) && DrawnInOrder(last.nodes, uuid, front.next, last.next)
    ensures DrawnInOrder(front.nodes + last.nodes, uuid, start, last.next)
  {
    var nodes := front.nodes + last.nodes;
    forall k, j | start <= k < last.next && start <= j < last.next && uuid(k) in nodes && uuid(j) in nodes[uuid(k)].children
      ensures k < j
    {
      if uuid(k) in last.nodes {
        OrderedWithin(last.nodes, uuid, front.next, last.next, k, j);
      } else {
        OrderedWithin(front.nodes, uuid, start, front.next, k, j);
      }
    }
  }

  /** An edge inside one copy joins answers drawn in order. */
  lemma OrderedWithin(nodes: Tree, uuid: nat -> Id, a: nat, b: nat, k: nat, j: nat)
    requires Injective(uuid) && nodes.Keys == UuidRange(uuid, a, b) && Linked(nodes)
    requires DrawnInOrder(nodes, uuid, a, b)
    requires uuid(k) in nodes && uuid(j) in nodes[uuid(k)].children
    ensures k < j
  {
    RangeIndex(uuid, a, b, k);
    RangeIndex(uuid, a, b, j);
  }

  /** Under an injective oracle, an answer drawn in a range was drawn at an index of that range. */
  lemma RangeIndex(uuid: nat -> Id, a: nat, b: nat, k: nat)
    requires Injective(uuid) && uuid(k) in UuidRange(uuid, a, b)
    ensures a <= k < b
  {
    var k' :| a <= k' < b && uuid(k') == uuid(k);
  }

  lemma ForestStepRoots(front: Copy, last: Copy, parent: Id)
    requires front.nodes.Keys !! last.nodes.Keys
    requires RootsUnder(front.nodes, front.roots, parent) && RootsUnder(last.nodes, last.roots, parent)
    ensures RootsUnder(front.nodes + last.nodes, front.roots + last.roots, parent)
  {
    var nodes := front.nodes + last.nodes;
    var roots := front.roots + last.roots;
    forall i | 0 <= i < |roots| ensures roots[i] in nodes && nodes[roots[i]].parent == Some(parent) {
      if i < |front.roots| {
        assert roots[i] == front.roots[i];
      } else {
        assert roots[i] == last.roots[i - |front.roots|];
      }
    }
    forall a, b | 0 <= a < b < |roots| ensures roots[a] != roots[b] {
      if a < |front.roots| && |front.roots| <= b {
        assert roots[a] == front.roots[a];
        assert roots[b] == last.roots[b - |front.roots|];
      } else if a < |front.roots| {
        assert roots[a] == front.roots[a] && roots[b] == front.roots[b];
      } else {
        assert roots[a] == last.roots[a - |front.roots|] && roots[b] == last.roots[b - |front.roots|];
      }
    }
  }

  lemma {:induction false} CloneTreeShaped(db: Tree, r: Ranking, uuid: nat -> Id, id: Id, parent: Id, start: nat)
    requires Ranked(db, r) && Closed(db) && id in db && Injective(uuid)
    ensures CopyShaped(CloneTree(db, r, uuid, id, parent, start), uuid, start, parent)
    decreases r.clock - r.born[id], 1, 0
  {
    var newId := uuid(start);
    var kids := CloneForest(db, r, uuid, db[id].children, newId, start + 1, r.born[id]);
    CloneForestShaped(db, r, uuid, db[id].children, newId, start + 1, r.born[id]);
    TreeStepShaped(kids, uuid, start, parent, Node(db[id].name, Some(parent), kids.roots, db[id].contents));
  }

  lemma {:induction false} CloneForestShaped(db: Tree, r: Ranking, uuid: nat -> Id, cs: seq<Id>, parent: Id, start: nat, lvl: nat)
    requires Ranked(db, r) && Closed(db) && lvl < r.clock && Injective(uuid)
    requires forall x :: x in cs ==> x in db && lvl < r.born[x]
    ensures CopyShaped(CloneForest(db, r, uuid, cs, parent, start, lvl), uuid, start, parent)
    decreases r.clock - lvl, 0, |cs|
  {
    if cs == [] {
      assert UuidRange(uuid, start, start) == {};
    } else {
      var front := CloneForest(db, r, uuid, cs[..|cs| - 1], parent, start, lvl);
      var last := CloneTree(db, r, uuid, cs[|cs| - 1], parent, front.next);
      CloneForestShaped(db, r, uuid, cs[..|cs| - 1], parent, start, lvl);
      CloneTreeShaped(db, r, uuid, cs[|cs| - 1], parent, front.next);
      ForestStepShaped(front, last, uuid, start, parent);
    }
  }

  /** The tree after clone_node's copy of `src` is stored and its root appended as the last child of `cur`. */
  ghost function CloneInto(db: Tree, r: Ranking, uuid: nat -> Id, src: Id, cur: Id, start: nat): Tree
    requires Ranked(db, r) && Closed(db) && src in db && cur in db
  {
    var d := db + CloneTree(db, r, uuid, src, cur, start).nodes;
    d[cur := d[cur].(children := d[cur].children + [uuid(start)])]
  }

  /** The ranking after a copy: the copied nodes are born in the order their ids were drawn, from `r.clock` on. */
  ghost function CloneRanking(r: Ranking, uuid: nat -> Id, start: nat, next: nat): Ranking
    requires Injective(uuid) && start <= next
  {
    Ranking(r.born + Births(uuid, start, next, r.clock), r.clock + (next - start))
  }

  ghost function Births(uuid: nat -> Id, start: nat, next: nat, clock: nat): map<Id, nat>
    requires Injective(uuid)
  {
    map k: nat | start <= k < next :: uuid(k) := clock + (k - start)
  }

  lemma BirthOf(uuid: nat -> Id, start: nat, next: nat, clock: nat, k: nat)
    requires Injective(uuid) && start <= k < next
    ensures var b := Births(uuid, start, next, clock); uuid(k) in b && b[uuid(k)] == clock + (k - start)
  {
  }

  lemma BirthsKeys(uuid: nat -> Id, start: nat, next: nat, clock: nat)
    requires Injective(uuid)
    ensures Births(uuid, start, next, clock).Keys == UuidRange(uuid, start, next)
  {
  }

  /** The oracle has not yet handed out any id of the tree. */
  ghost predicate FreshFrom(uuid: nat -> Id, r: Ranking, start: nat) {
    forall k :: start <= k ==> uuid(k) !in r.born
  }

  /**
   * Storing a deep copy under `cur` keeps the tree well formed, whichever node
   * was copied, `cur` and its ancestors included: the copy is made in full
   * before it is attached, so it never contains its own new root.
   */
  lemma CloneIntoKeepsWellFormed(db: Tree, r: Ranking, uuid: nat -> Id, src: Id, cur: Id, start: nat)
    requires WellFormed(db, r) && src in db && cur in db && Injective(uuid) && FreshFrom(uuid, r, start)
    ensures var c := CloneTree(db, r, uuid, src, cur, start);
      WellFormed(CloneInto(db, r, uuid, src, cur, start), CloneRanking(r, uuid, start, c.next))
  {
    var c := CloneTree(db, r, uuid, src, cur, start);
    var t := CloneInto(db, r, uuid, src, cur, start);
    CloneTreeShaped(db, r, uuid, src, cur, start);
    assert db.Keys !! c.nodes.Keys;
    assert Closed(t) && ParentsAgree(t) && DistinctChildren(t) by {
      CloneIntoLinked(db, c, uuid(start), cur);
    }
    assert Ranked(t, CloneRanking(r, uuid, start, c.next)) by {
      CloneRankingFacts(r, uuid, start, c.next);
      CloneIntoRanked(db, r, c, uuid, start, cur, CloneRanking(r, uuid, start, c.next));
    }
  }

  lemma CloneIntoLinked(db: Tree, c: Copy, root: Id, cur: Id)
    requires Closed(db) && ParentsAgree(db) && DistinctChildren(db) && cur in db
    requires db.Keys !! c.nodes.Keys && Linked(c.nodes) && ListsDistinct(c.nodes)
    requires root in c.nodes && c.nodes[root].parent == Some(cur)
    ensures var d := db + c.nodes;
      var t := d[cur := d[cur].(children := d[cur].children + [root])];
      Closed(t) && ParentsAgree(t) && DistinctChildren(t)
  {
    var d := db + c.nodes;
    var t := d[cur := d[cur].(children := d[cur].children + [root])];
    forall k, x | k in t && x in t[k].children ensures x in t && t[x].parent == Some(k) {
      if k in c.nodes {
        assert x in c.nodes[k].children;
      } else if k == cur && x == root {
      } else {
        assert x in db[k].children;
      }
    }
    forall k | k in t ensures NoDuplicates(t[k].children) {
      if k == cur {
        assert root !in db[cur].children;
      }
    }
  }

  lemma CloneRankingFacts(r: Ranking, uuid: nat -> Id, start: nat, next: nat)
    requires Injective(uuid) && FreshFrom(uuid, r, start) && start <= next
    ensures var r' := CloneRanking(r, uuid, start, next);
      && r'.clock == r.clock + (next - start)
      && (forall k :: k in r.born ==> k in r'.born && r'.born[k] == r.born[k])
      && (forall i :: start <= i < next ==> uuid(i) in r'.born && r'.born[uuid(i)] == r.clock + (i - start))
  {
    var b := Births(uuid, start, next, r.clock);
    BirthsKeys(uuid, start, next, r.clock);
    forall i | start <= i < next ensures uuid(i) in b && b[uuid(i)] == r.clock + (i - start) {
      BirthOf(uuid, start, next, r.clock, i);
    }
  }

  lemma CloneIntoRanked(db: Tree, r: Ranking, c: Copy, uuid: nat -> Id, start: nat, cur: Id, r': Ranking)
    requires Ranked(db, r) && cur in db && Injective(uuid) && start <= c.next
    requires c.nodes.Keys == UuidRange(uuid, start, c.next) && Linked(c.nodes)
    requires DrawnInOrder(c.nodes, uuid, start, c.next) && uuid(start) in c.nodes
    requires r'.clock == r.clock + (c.next - start)
    requires forall k :: k in r.born ==> k in r'.born && r'.born[k] == r.born[k]
    requires forall i :: start <= i < c.next ==> uuid(i) in r'.born && r'.born[uuid(i)] == r.clock + (i - start)
    ensures var d := db + c.nodes;
      var t := d[cur := d[cur].(children := d[cur].children + [uuid(start)])];
      Ranked(t, r')
  {
    var d := db + c.nodes;
    var root := uuid(start);
    var t := d[cur := d[cur].(children := d[cur].children + [root])];
    forall k | k in t ensures k in r'.born && r'.born[k] < r'.clock {
      if k in c.nodes {
        var i: nat :| start <= i < c.next && uuid(i) == k;
      } else {
        assert k in db;
      }
    }
    forall k, x | k in t && x in t && x in t[k].children ensures r'.born[k] < r'.born[x] {
      CloneIntoEdgeRanked(db, r, c, uuid, start, cur, r', k, x);
    }
  }

  lemma CloneIntoEdgeRanked(db: Tree, r: Ranking, c: Copy, uuid: nat -> Id, start: nat, cur: Id, r': Ranking, k: Id, x: Id)
    requires Ranked(db, r) && cur in db && Injective(uuid) && start <= c.next
    requires c.nodes.Keys == UuidRange(uuid, start, c.next) && Linked(c.nodes)
    requires DrawnInOrder(c.nodes, uuid, start, c.next) && uuid(start) in c.nodes
    requires r'.clock == r.clock + (c.next - start)
    requires forall k :: k in r.born ==> k in r'.born && r'.born[k] == r.born[k]
    requires forall i :: start <= i < c.next ==> uuid(i) in r'.born && r'.born[uuid(i)] == r.clock + (i - start)
    requires var d := db + c.nodes;
      var t := d[cur := d[cur].(children := d[cur].children + [uuid(start)])];
      k in t && x in t && x in t[k].children
    ensures k in r'.born && x in r'.born && r'.born[k] < r'.born[x]
  {
    if k in c.nodes {
      var i: nat :| start <= i < c.next && uuid(i) == k;
      assert x in c.nodes[k].children;
      assert x in c.nodes;
      var j: nat :| start <= j < c.next && uuid(j) == x;
      assert i < j;
    } else if k == cur && x == uuid(start) {
    } else {
      assert k in db && x in db[k].children;
    }
  }

  /**
   * The node `nid` of `t` reproduces the subtree of `id` in `db`: same name,
   * same contents, and children that reproduce the original children, one by
   * one and in the same order.
   */
  ghost predicate Mirrors(db: Tree, r: Ranking, id: Id, t: Tree, nid: Id)
    requires Ranked(db, r) && Closed(db) && id in db
    decreases r.clock - r.born[id]
  {
    && nid in t
    && t[nid].name == db[id].name
    && t[nid].contents == db[id].contents
    && |t[nid].children| == |db[id].children|
    && (forall i :: 0 <= i < |db[id].children| ==> Mirrors(db, r, db[id].children[i], t, t[nid].children[i]))
  }

  /** Adding or keeping records around a reproduced subtree does not undo the reproduction. */
  lemma {:induction false} MirrorsGrow(db: Tree, r: Ranking, id: Id, t: Tree, t': Tree, nid: Id)
    requires Ranked(db, r) && Closed(db) && id in db && Mirrors(db, r, id, t, nid)
    requires forall k :: k in t ==> k in t' && t'[k] == t[k]
    ensures Mirrors(db, r, id, t', nid)
    decreases r.clock - r.born[id]
  {
    forall i | 0 <= i < |db[id].children| ensures Mirrors(db, r, db[id].children[i], t', t'[nid].children[i]) {
      MirrorsGrow(db, r, db[id].children[i], t, t', t[nid].children[i]);
    }
  }

  /** A deep copy reproduces the node it copies, down to its last descendant. */
  lemma {:induction false} CloneTreeMirrors(db: Tree, r: Ranking, uuid: nat -> Id, id: Id, parent: Id, start: nat)
    requires Ranked(db, r) && Closed(db) && id in db && Injective(uuid)
    ensures var c := CloneTree(db, r, uuid, id, parent, start); Mirrors(db, r, id, c.nodes, uuid(start))
    decreases r.clock - r.born[id], 1, 0
  {
    var newId := uuid(start);
    var cs := db[id].children;
    var kids := CloneForest(db, r, uuid, cs, newId, start + 1, r.born[id]);
    var c := CloneTree(db, r, uuid, id, parent, start);
    CloneForestMirrors(db, r, uuid, cs, newId, start + 1, r.born[id]);
    assert newId !in kids.nodes;
    forall i | 0 <= i < |cs| ensures Mirrors(db, r, cs[i], c.nodes, c.nodes[newId].children[i]) {
      MirrorsGrow(db, r, cs[i], kids.nodes, c.nodes, kids.roots[i]);
    }
  }

  /** Copies of a list of siblings reproduce the siblings, in order. */
  lemma {:induction false} CloneForestMirrors(db: Tree, r: Ranking, uuid: nat -> Id, cs: seq<Id>, parent: Id, start: nat, lvl: nat)
    requires Ranked(db, r) && Closed(db) && lvl < r.clock && Injective(uuid)
    requires forall x :: x in cs ==> x in db && lvl < r.born[x]
    ensures var c := CloneForest(db, r, uuid, cs, parent, start, lvl);
      forall i :: 0 <= i < |cs| ==> Mirrors(db, r, cs[i], c.nodes, c.roots[i])
    decreases r.clock - lvl, 0, |cs|
  {
    if cs != [] {
      var n := |cs| - 1;
      var front := CloneForest(db, r, uuid, cs[..n], parent, start, lvl);
      var last := CloneTree(db, r, uuid, cs[n], parent, front.next);
      var c := CloneForest(db, r, uuid, cs, parent, start, lvl);
      CloneForestMirrors(db, r, uuid, cs[..n], parent, start, lvl);
      CloneTreeMirrors(db, r, uuid, cs[n], parent, front.next);
      UuidRangesDisjoint(uuid, start, front.next, front.next, last.next);
      MirrorsJoin(db, r, cs, front, last, c);
    }
  }

  /** Copies of the first siblings and a copy of the last one, put side by side, reproduce all of them. */
  lemma MirrorsJoin(db: Tree, r: Ranking, cs: seq<Id>, front: Copy, last: Copy, c: Copy)
    requires Ranked(db, r) && Closed(db) && cs != [] && forall x :: x in cs ==> x in db
    requires |front.roots| == |cs| - 1 && |last.roots| == 1 && front.nodes.Keys !! last.nodes.Keys
    requires forall i :: 0 <= i < |cs| - 1 ==> Mirrors(db, r, cs[i], front.nodes, front.roots[i])
    requires Mirrors(db, r, cs[|cs| - 1], last.nodes, last.roots[0])
    requires c.nodes == front.nodes + last.nodes && c.roots == front.roots + last.roots
    ensures forall i :: 0 <= i < |cs| ==> Mirrors(db, r, cs[i], c.nodes, c.roots[i])
  {
    forall i | 0 <= i < |cs| ensures Mirrors(db, r, cs[i], c.nodes, c.roots[i]) {
      if i < |cs| - 1 {
        MirrorsGrow(db, r, cs[i], front.nodes, c.nodes, front.roots[i]);
      } else {
        MirrorsGrow(db, r, cs[i], last.nodes, c.nodes, last.roots[0]);
      }
    }
  }

  /**
   * clone_node as used when an existing id is entered: the copy of `src` is a
   * new node under `cur`, appended after its other children, that reproduces
   * `src` with all its descendants, and no existing node other than `cur` changes.
   */
  lemma CloneIntoFacts(db: Tree, r: Ranking, uuid: nat -> Id, src: Id, cur: Id, start: nat)
    requires WellFormed(db, r) && src in db && cur in db && Injective(uuid) && FreshFrom(uuid, r, start)
    ensures var t := CloneInto(db, r, uuid, src, cur, start);
      && uuid(start) !in db
      && Mirrors(db, r, src, t, uuid(start))
      && t[uuid(start)].parent == Some(cur)
      && t[cur] == db[cur].(children := db[cur].children + [uuid(start)])
      && (forall k :: k in db && k != cur ==> k in t && t[k] == db[k])
  {
    var c := CloneTree(db, r, uuid, src, cur, start);
    var t := CloneInto(db, r, uuid, src, cur, start);
    CloneTreeShaped(db, r, uuid, src, cur, start);
    CloneTreeMirrors(db, r, uuid, src, cur, start);
    assert db.Keys !! c.nodes.Keys;
    MirrorsGrow(db, r, src, c.nodes, t, uuid(start));
  }

  // ---------------------------------------------------------------------------
  // Facts the imperative delete and add rely on
  // ---------------------------------------------------------------------------

  /** A subtree is its top and the subtrees under the top's children. */
  lemma SubtreeUnfold(db: Tree, r: Ranking, id: Id)
    requires Ranked(db, r) && id in db
    ensures Subtree(db, r, id) == {id} + Below(db, r, db[id].children)
  {
  }

  /** The subtrees under a list of ids, one more id at a time. */
  lemma BelowSnoc(db: Tree, r: Ranking, cs: seq<Id>, i: nat)
    requires Ranked(db, r) && i < |cs|
    ensures Below(db, r, cs[..i + 1]) == Below(db, r, cs[..i]) + Subtree(db, r, cs[i])
  {
    assert cs[..i + 1] == cs[..i] + [cs[i]];
  }

  /** `r2` keeps every birth of `r1` and its clock has not gone back. */
  ghost predicate Extends(r1: Ranking, r2: Ranking) {
    && r1.clock <= r2.clock
    && forall k :: k in r1.born ==> k in r2.born && r2.born[k] == r1.born[k]
  }

  /** A tree well formed under a ranking stays so under any extension of it, which keeps old snapshots usable. */
  lemma WellFormedExtends(db: Tree, r1: Ranking, r2: Ranking)
    requires WellFormed(db, r1) && Extends(r1, r2)
    ensures WellFormed(db, r2)
  {
  }

  lemma CloneRankingExtends(r: Ranking, uuid: nat -> Id, start: nat, next: nat)
    requires Injective(uuid) && FreshFrom(uuid, r, start) && start <= next
    ensures Extends(r, CloneRanking(r, uuid, start, next))
    ensures FreshFrom(uuid, CloneRanking(r, uuid, start, next), next)
  {
    CloneRankingFacts(r, uuid, start, next);
    BirthsKeys(uuid, start, next, r.clock);
    var r' := CloneRanking(r, uuid, start, next);
    forall k | next <= k ensures uuid(k) !in r'.born {
      assert uuid(k) !in UuidRange(uuid, start, next);
    }
  }

  /** The record a plain add stores: the typed name under the current node, with no children and no contents. */
  function NewButton(name: Id, p: Id): Node {
    Node(name, Some(p), [], [])
  }

  /** The tree when the plain add takes its snapshot: the new record is stored but not yet listed under `p`. */
  function WithOrphan(db: Tree, p: Id, c: Id, name: string): (t: Tree)
    ensures t.Keys == db.Keys + {c}
  {
    db[c := NewButton(name, p)]
  }

  /** The tree after a plain add: the new record listed last among the children of `p`. */
  function WithNewButton(db: Tree, p: Id, c: Id, name: string): Tree
    requires p in db
  {
    var t := WithOrphan(db, p, c, name);
    t[p := t[p].(children := t[p].children + [c])]
  }

  /** The ranking once the record `c` is born. */
  function BornNow(r: Ranking, c: Id): (r2: Ranking)
    ensures c in r2.born && r2.born[c] == r.clock && r2.clock == r.clock + 1
  {
    Ranking(r.born[c := r.clock], r.clock + 1)
  }

  /** The snapshot a plain add records is a well-formed tree too: the new record is merely unlisted. */
  lemma WithOrphanWellFormed(db: Tree, r: Ranking, p: Id, c: Id, name: string)
    requires WellFormed(db, r) && p in db && c !in r.born
    ensures WellFormed(WithOrphan(db, p, c, name), BornNow(r, c))
    ensures Extends(r, BornNow(r, c))
  {
  }

  /**
   * A plain add keeps the tree well formed; the new node sits under `p` after
   * its former children, and nothing else changes.
   */
  lemma WithNewButtonWellFormed(db: Tree, r: Ranking, p: Id, c: Id, name: string)
    requires WellFormed(db, r) && p in db && c !in r.born
    ensures var t := WithNewButton(db, p, c, name);
      && WellFormed(t, BornNow(r, c))
      && t.Keys == db.Keys + {c}
      && t[c] == NewButton(name, p)
      && t[p].children == db[p].children + [c]
      && forall k :: k in db && k != p ==> t[k] == db[k]
  {
    ListNewButton(db, r, p, c, name);
  }

  lemma ListNewButton(db: Tree, r: Ranking, p: Id, c: Id, name: string)
    requires WellFormed(db, r) && p in db && c !in r.born
    ensures WellFormed(WithNewButton(db, p, c, name), BornNow(r, c))
  {
    var t := WithOrphan(db, p, c, name);
    var r2 := BornNow(r, c);
    WithOrphanWellFormed(db, r, p, c, name);
    assert forall k :: k in t ==> c !in t[k].children;
    AppendChildKeepsWellFormed(t, r2, p, c);
  }

  /**
   * The plain add records its snapshot after storing the new record, so an
   * undo of the add brings back a tree holding that record, unreachable from
   * the root: the undo does not remove the button, it only unlists it.
   */
  lemma UndoneAddLeavesOrphan(db: Tree, r: Ranking, p: Id, c: Id, name: string)
    requires WellFormed(db, r) && p in db && c !in r.born
    ensures var t := WithOrphan(db, p, c, name);
      c in t && t != db && c !in Subtree(t, BornNow(r, c), Root)
  {
    var t := WithOrphan(db, p, c, name);
    var r2 := BornNow(r, c);
    WithOrphanWellFormed(db, r, p, c, name);
    assert c !in db;
    if c in Subtree(t, r2, Root) {
      var q := SubtreeMemberHasParent(t, r2, Root, c);
    }
  }

  /** Rewriting one record's name or contents keeps the tree well formed. */
  lemma RecordEditKeepsWellFormed(db: Tree, r: Ranking, p: Id, n: Node)
    requires WellFormed(db, r) && p in db
    requires n.children == db[p].children && n.parent == db[p].parent
    ensures WellFormed(db[p := n], r)
  {
  }

  /** One round of delete_node_recursive's loop: deleting the next child's subtree extends what is gone by exactly that subtree. */
  lemma DeleteLoopStep(db0: Tree, r: Ranking, cs: seq<Id>, i: nat, d: Tree)
    requires Ranked(db0, r) && i < |cs|
    requires d == db0 - Below(db0, r, cs[..i])
    ensures Ranked(d, r)
    ensures d - Subtree(d, r, cs[i]) == db0 - Below(db0, r, cs[..i + 1])
  {
    var b := Below(db0, r, cs[..i]);
    var s := Subtree(db0, r, cs[i]);
    assert Ranked(d, r) && Subtree(d, r, cs[i]) == s - b by {
      SubtreeIsDownClosed(db0, r, cs[..i]);
      SubtreeAfterRemoval(db0, r, b, cs[i]);
    }
    assert Below(db0, r, cs[..i + 1]) == b + s by {
      BelowSnoc(db0, r, cs, i);
    }
    RemoveTwice(db0, b, s);
  }

  /** Removing `b`, then what remains of `s`, is removing both at once. */
  lemma RemoveTwice(db: Tree, b: set<Id>, s: set<Id>)
    ensures (db - b) - (s - b) == db - (b + s)
  {
    assert ((db - b) - (s - b)).Keys == (db - (b + s)).Keys;
  }

  /** What the delete flow leaves: the child unlisted and its subtree, as it was before, removed. */
  lemma DeleteOutcome(db: Tree, r: Ranking, p: Id, target: Id)
    requires WellFormed(db, r) && p in db && target in db[p].children
    ensures var d := Detach(db, p, target);
      && Ranked(d, r)
      && d - Subtree(d, r, target) == Detach(db, p, target) - Subtree(db, r, target)
      && WellFormed(d - Subtree(d, r, target), r)
      && p in d - Subtree(d, r, target)
  {
    DetachFacts(db, r, p, target);
    DeleteChildKeepsWellFormed(db, r, p, target);
  }
}
