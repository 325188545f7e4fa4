/**
 The prefix tree in memory: nodes whose entries are changed in place. Every
 operation is proved against the value it keeps in `tree`, so what
 `RadixTree.dfy` proves of the value holds of the nodes.
 */
module BPTrees {
  import opened Bytes
  import opened Records
  import opened KeyIndex
  import opened RadixTree
  import Listing

  datatype NodeEntry = NodeEntry(prefix: Key, revs: seq<Revision>, tombstone: bool, child: TreeNode?)

  ghost predicate Matches(h: NodeEntry, e: Entry) {
    h.prefix == e.prefix && h.revs == e.revs && h.tombstone == e.tombstone
  }

  method CommonPrefixLen(a: Key, b: Key) returns (c: nat)
    ensures c == CommonLen(a, b)
  {
    var n := if |a| < |b| then |a| else |b|;
    c := 0;
    while c < n && a[c] == b[c]
      invariant 0 <= c <= n
      invariant CommonLen(a, b) == c + CommonLen(a[c..], b[c..])
    {
      assert a[c..][1..] == a[c + 1..] && b[c..][1..] == b[c + 1..];
      c := c + 1;
    }
  }

  /** Binary search for the first revision above `through` (`sort.Search`). */
  method SearchAbove(revs: seq<Revision>, through: Revision) returns (i: nat)
    requires Ascending(revs)
    ensures i == FirstAbove(revs, through)
  {
    var lo, hi := 0, |revs|;
    while lo < hi
      invariant 0 <= lo <= hi <= |revs|
      invariant lo > 0 ==> revs[lo - 1] <= through
      invariant hi < |revs| ==> revs[hi] > through
    {
      var mid := (lo + hi) / 2;
      if revs[mid] > through {
        hi := mid;
      } else {
        lo := mid + 1;
      }
    }
    i := lo;
    FirstAboveIs(revs, through, i);
  }

  lemma FirstAboveIs(revs: seq<Revision>, through: Revision, i: nat)
    requires Ascending(revs) && i <= |revs|
    requires i > 0 ==> revs[i - 1] <= through
    requires i < |revs| ==> revs[i] > through
    ensures FirstAbove(revs, through) == i
  {
    if i > 0 {
      FirstAboveSplits(revs, through, i - 1);
    }
    if i < |revs| {
      FirstAboveSplits(revs, through, i);
    }
  }

  /** The latest revision at or below `at`, scanning back from the newest. */
  method ScanBack(revs: seq<Revision>, at: Revision) returns (revision: Revision, found: bool)
    ensures (if found then Some(revision) else None) == LatestAt(revs, at)
  {
    var i := |revs|;
    assert revs[..i] == revs;
    while i > 0
      invariant 0 <= i <= |revs|
      invariant LatestAt(revs[..i], at) == LatestAt(revs, at)
    {
      i := i - 1;
      assert revs[..i + 1][..i] == revs[..i];
      if revs[i] <= at {
        return revs[i], true;
      }
    }
    return 0, false;
  }

  /** Trim one key's revisions; `gone` if the key is to be removed. */
  method CompactRevisions(revs: seq<Revision>, tombstone: bool, through: Revision)
    returns (kept: seq<Revision>, dropped: nat, gone: bool)
    requires revs != [] && Ascending(revs)
    ensures gone == Gone(KeyRevs(revs, tombstone), through)
    ensures gone ==> kept == [] && dropped == |revs|
    ensures !gone ==> kept == CompactRevs(KeyRevs(revs, tombstone), through).revs && dropped == KeepFrom(revs, through)
    ensures dropped + |kept| == |revs|
  {
    if tombstone && revs[|revs| - 1] <= through {
      return [], |revs|, true;
    }
    var i := SearchAbove(revs, through);
    if i > 0 {
      i := i - 1;
    }
    kept, dropped, gone := revs[i..], i, false;
  }

  class TreeNode {
    var entries: seq<NodeEntry>
    ghost var tree: Node            // the value this node and those below it stand for
    ghost var Repr: set<TreeNode>   // this node and those below it

    ghost predicate Valid()
      reads this, Repr
      decreases Repr
    {
      && this in Repr
      && |entries| == |tree|
      && (forall i :: 0 <= i < |entries| ==> Matches(entries[i], tree[i]))
      && (forall i :: 0 <= i < |entries| ==> entries[i].child == null ==> tree[i].child == [])
      && (forall i :: 0 <= i < |entries| ==> entries[i].child != null ==>
            && entries[i].child in Repr
            && entries[i].child.Repr <= Repr
            && this != entries[i].child
            && this !in entries[i].child.Repr
            && Under(this, Repr, entries[i].child, tree[i].child))
      && (forall i, j :: 0 <= i < j < |entries| && entries[i].child != null && entries[j].child != null ==>
            entries[i].child.Repr !! entries[j].child.Repr)
    }

    /** A child is a proper part of its parent, and stands for `t`. */
    static ghost predicate Under(parent: TreeNode, repr: set<TreeNode>, c: TreeNode, t: Node)
      reads c, c.Repr
      decreases repr, 0
    {
      && c in repr
      && c.Repr < repr
      && parent !in c.Repr
      && c.Valid()
      && c.tree == t
    }

    lemma SameLength()
      requires Valid()
      ensures |entries| == |tree|
    {
    }

    constructor ()
      ensures Valid() && tree == [] && Repr == {this} && entries == []
    {
      entries := [];
      tree := [];
      Repr := {this};
    }

    /** The index of the entry whose prefix starts with `b`, or where it would go. */
    method Find(b: byte) returns (pos: nat, found: bool)
      requires Valid() && WellFormed(tree)
      ensures pos == FindPos(tree, b) && found == Found(tree, b)
    {
      hide EntryWellFormed, Under;
      assert forall i :: 0 <= i < |tree| ==> tree[i].prefix != [] by { NonemptyPrefixes(tree); }
      var lo, hi := 0, |entries|;
      while lo < hi
        invariant 0 <= lo <= hi <= |entries|
        invariant forall i :: 0 <= i < lo ==> First(tree[i]) < b as int
        invariant forall i :: hi <= i < |entries| ==> First(tree[i]) >= b as int
      {
        var mid := (lo + hi) / 2;
        assert Matches(entries[mid], tree[mid]);
        if entries[mid].prefix[0] >= b {
          hi := mid;
        } else {
          lo := mid + 1;
        }
      }
      pos := lo;
      FindPosIs(tree, b, pos);
      if pos < |entries| {
        assert Matches(entries[pos], tree[pos]);
      }
      found := pos < |entries| && entries[pos].prefix[0] == b;
    }

    /** The revisions of `key`, empty if the tree does not hold it. */
    method Lookup(key: Key) returns (revs: seq<Revision>)
      requires Valid() && WellFormed(tree) && key != []
      ensures revs == if Get(tree, key).Some? then Get(tree, key).value.revs else []
    {
      var n: TreeNode, k := this, key;
      while true
        invariant n.Valid() && WellFormed(n.tree) && k != []
        invariant Get(n.tree, k) == Get(tree, key)
        decreases |k|
      {
        var pos, found := n.Find(k[0]);
        if !found {
          return [];
        }
        var e := n.entries[pos];
        assert Matches(e, n.tree[pos]) && EntryWellFormed(n.tree[pos]);
        if !(|e.prefix| <= |k| && k[..|e.prefix|] == e.prefix) {
          return [];
        }
        if |k| == |e.prefix| {
          return e.revs;
        }
        if e.child == null {
          assert n.tree[pos].child == [];
          assert Get([], k[|e.prefix|..]).None?;
          return [];
        }
        assert Under(n, n.Repr, e.child, n.tree[pos].child);
        k := k[|e.prefix|..];
        n := e.child;
      }
    }

    /** A node with one entry, over an existing subtree if the entry has one. */
    constructor Single(h: NodeEntry, ghost e: Entry)
      requires Matches(h, e)
      requires h.child == null ==> e.child == []
      requires h.child != null ==> h.child.Valid() && h.child.tree == e.child
      ensures Valid() && tree == [e]
      ensures Repr == {this} + if h.child == null then {} else h.child.Repr
    {
      entries := [h];
      tree := [e];
      Repr := {this} + if h.child == null then {} else h.child.Repr;
    }

    /** Put a new leaf at `pos`. */
    method InsertLeaf(pos: nat, key: Key, revision: Revision, tombstone: bool)
      requires Valid() && pos <= |tree|
      modifies this
      ensures Valid() && Repr == old(Repr)
      ensures tree == Inserted(old(tree), pos, Entry(key, [revision], tombstone, []))
    {
      hide Under, First;
      ghost var before := tree;
      var leaf := NodeEntry(key, [revision], tombstone, null);
      entries := entries[..pos] + [leaf] + entries[pos..];
      tree := Inserted(before, pos, Entry(key, [revision], tombstone, []));
      forall i | 0 <= i < |entries| && i != pos
        ensures entries[i] == old(entries)[if i < pos then i else i - 1]
        ensures tree[i] == before[if i < pos then i else i - 1]
      {
      }
      forall i, j | 0 <= i < j < |entries| && entries[i].child != null && entries[j].child != null
        ensures entries[i].child.Repr !! entries[j].child.Repr
      {
        var i', j' := if i < pos then i else i - 1, if j < pos then j else j - 1;
        assert old(entries[i'].child.Repr !! entries[j'].child.Repr);
      }
    }

    /** Replace an entry's own revisions. */
    method SetOwn(pos: nat, revs: seq<Revision>, tombstone: bool)
      requires Valid() && pos < |tree|
      modifies this
      ensures Valid() && Repr == old(Repr)
      ensures tree == old(tree)[pos := old(tree)[pos].(revs := revs, tombstone := tombstone)]
      ensures forall i :: 0 <= i < |entries| && 0 <= i < |old(entries)| ==> entries[i].child == old(entries)[i].child
      ensures |entries| == |old(entries)|
    {
      entries := entries[pos := entries[pos].(revs := revs, tombstone := tombstone)];
      tree := tree[pos := tree[pos].(revs := revs, tombstone := tombstone)];
    }

    /** Give an entry that has none an empty child node. */
    method NewChild(pos: nat)
      requires Valid() && pos < |entries| && entries[pos].child == null
      modifies this
      ensures Valid() && fresh(Repr - old(Repr)) && tree == old(tree)
      ensures |entries| == |old(entries)| && entries[pos].child != null
    {
      var c := new TreeNode();
      entries := entries[pos := entries[pos].(child := c)];
      Repr := Repr + {c};
      assert Under(this, Repr, c, tree[pos].child);
      assert forall i :: 0 <= i < |entries| && i != pos ==> entries[i] == old(entries)[i];
    }

    /** Split the entry at `pos` after its first `c` bytes; what follows becomes its only child. */
    method Split(pos: nat, c: nat)
      requires Valid() && pos < |tree| && c <= |tree[pos].prefix|
      modifies this
      ensures Valid() && fresh(Repr - old(Repr))
      ensures |entries| == |old(entries)| && entries[pos].child != null
      ensures tree == old(tree)[pos := Entry(old(tree)[pos].prefix[..c], [], false, [Remainder(old(tree)[pos], c)])]
    {
      var h := entries[pos];
      ghost var e := tree[pos];
      assert Matches(h, e);
      if h.child != null {
        assert Under(this, Repr, h.child, e.child);
      }
      var below := new TreeNode.Single(h.(prefix := h.prefix[c..]), Remainder(e, c));
      entries := entries[pos := NodeEntry(h.prefix[..c], [], false, below)];
      tree := tree[pos := Entry(e.prefix[..c], [], false, [Remainder(e, c)])];
      Repr := Repr + {below};
      assert Under(this, Repr, below, tree[pos].child);
      assert forall i :: 0 <= i < |entries| && i != pos ==> entries[i] == old(entries)[i];
    }

    /** Add a revision below the entry at `pos`. */
    method Descend(pos: nat, rest: Key, revision: Revision, tombstone: bool) returns (isNew: bool)
      requires Valid() && pos < |entries| && entries[pos].child != null
      requires WellFormed(tree[pos].child) && rest != []
      modifies Repr
      ensures Valid() && fresh(Repr - old(Repr))
      ensures isNew == Get(old(tree)[pos].child, rest).None?
      ensures tree == old(tree)[pos := old(tree)[pos].(child := Add(old(tree)[pos].child, rest, revision, tombstone))]
      decreases |rest|, 2
    {
      hide Get, Add, WellFormed;
      var c := entries[pos].child;
      assert Under(this, Repr, c, tree[pos].child);
      forall i | 0 <= i < |entries| && entries[i].child != null && i != pos
        ensures Under(this, Repr, entries[i].child, tree[i].child)
        ensures entries[i].child.Repr !! c.Repr && entries[i].child in entries[i].child.Repr
      {
        if i < pos {
          assert entries[i].child.Repr !! entries[pos].child.Repr;
        } else {
          assert entries[pos].child.Repr !! entries[i].child.Repr;
        }
      }
      isNew := c.AddRevision(rest, revision, tombstone);
      Repr := Repr + c.Repr;
      tree := tree[pos := tree[pos].(child := c.tree)];
      assert Under(this, Repr, c, tree[pos].child);
      forall i | 0 <= i < |entries| && entries[i].child != null && i != pos
        ensures Under(this, Repr, entries[i].child, tree[i].child)
        ensures entries[i].child.Repr !! c.Repr
      {
        assert old(Under(this, Repr, entries[i].child, tree[i].child));
      }
    }

    /** Add a revision of a key that has the prefix of the entry at `pos`. */
    method AddPrefixed(pos: nat, key: Key, revision: Revision, tombstone: bool) returns (isNew: bool)
      requires Valid() && pos < |tree| && EntryWellFormed(tree[pos])
      requires HasPrefix(key, tree[pos].prefix) && CommonLen(tree[pos].prefix, key) == |tree[pos].prefix|
      modifies Repr
      ensures Valid() && fresh(Repr - old(Repr))
      ensures tree == old(tree)[pos := AddIn(old(tree)[pos], key, revision, tombstone)]
      ensures isNew == GetIn(old(tree)[pos], key).None?
      decreases |key|, 0
    {
      hide Get, Add, Under;
      var h := entries[pos];
      ghost var e := tree[pos];
      assert Matches(h, e);
      if |h.prefix| == |key| {
        isNew := h.revs == [];
        SetOwn(pos, h.revs + [revision], tombstone);
      } else {
        if h.child == null {
          NewChild(pos);
        }
        isNew := Descend(pos, key[|h.prefix|..], revision, tombstone);
      }
    }

    /** Add a revision of a key that diverges inside the prefix of the entry at `pos`. */
    method AddDiverging(pos: nat, common: nat, key: Key, revision: Revision, tombstone: bool) returns (isNew: bool)
      requires Valid() && pos < |tree| && EntryWellFormed(tree[pos]) && key != []
      requires common == CommonLen(tree[pos].prefix, key) && 0 < common < |tree[pos].prefix|
      requires tree[pos].prefix[0] == key[0]
      modifies Repr
      ensures Valid() && fresh(Repr - old(Repr))
      ensures tree == old(tree)[pos := AddIn(old(tree)[pos], key, revision, tombstone)]
      ensures isNew == GetIn(old(tree)[pos], key).None?
      decreases |key|, 0
    {
      hide Get, Add, Under, CommonLen;
      ghost var e := tree[pos];
      NotPrefixed(e, key);
      Split(pos, common);
      if common == |key| {
        assert e.prefix[..common] == key[..common] == key;
        SetOwn(pos, [revision], tombstone);
        isNew := true;
      } else {
        assert WellFormed([Remainder(e, common)]);
        assert key[..common] == e.prefix[..common];
        GetInRemainder(e, common, key);
        isNew := Descend(pos, key[common..], revision, tombstone);
      }
    }

    /** Add a revision of the key that continues with `key` from this node; true if the key is new. */
    method AddRevision(key: Key, revision: Revision, tombstone: bool) returns (isNew: bool)
      requires Valid() && WellFormed(tree) && key != []
      modifies Repr
      ensures Valid() && fresh(Repr - old(Repr))
      ensures tree == Add(old(tree), key, revision, tombstone)
      ensures isNew == Get(old(tree), key).None?
      decreases |key|, 1
    {
      hide Under, AddIn, GetIn, CommonLen;
      var pos, found := Find(key[0]);
      if !found {
        InsertLeaf(pos, key, revision, tombstone);
        return true;
      }
      assert Matches(entries[pos], tree[pos]) && EntryWellFormed(tree[pos]);
      var common := CommonPrefixLen(entries[pos].prefix, key);
      CommonLenPositive(tree[pos].prefix, key);
      if common == |entries[pos].prefix| {
        assert key[..common] == tree[pos].prefix[..common] == tree[pos].prefix;
        isNew := AddPrefixed(pos, key, revision, tombstone);
      } else {
        isNew := AddDiverging(pos, common, key, revision, tombstone);
      }
    }

    /** Compact the child of the entry at `pos`. */
    method CompactChild(pos: nat, through: Revision) returns (keys: nat, revisions: nat)
      requires Valid() && pos < |entries| && AscendingNode(tree[pos].child)
      modifies Repr
      ensures Valid() && Repr == old(Repr) && entries == old(entries)
      ensures tree == old(tree)[pos := old(tree)[pos].(child := CompactNode(old(tree)[pos].child, through))]
      ensures Totals(keys, revisions) == CompactReport(old(tree)[pos].child, through)
      decreases Repr, 0, 0
    {
      hide CompactNode, CompactReport, AscendingNode;
      var c := entries[pos].child;
      if c == null {
        assert tree[pos].child == [];
        EmptyCompacts(through);
        return 0, 0;
      }
      assert Under(this, Repr, c, tree[pos].child);
      forall i | 0 <= i < |entries| && entries[i].child != null && i != pos
        ensures Under(this, Repr, entries[i].child, tree[i].child)
        ensures entries[i].child.Repr !! c.Repr && entries[i].child in entries[i].child.Repr
      {
        if i < pos {
          assert entries[i].child.Repr !! entries[pos].child.Repr;
        } else {
          assert entries[pos].child.Repr !! entries[i].child.Repr;
        }
      }
      keys, revisions := c.Compact(through);
      tree := tree[pos := tree[pos].(child := c.tree)];
      assert Under(this, Repr, c, tree[pos].child);
      forall i | 0 <= i < |entries| && entries[i].child != null && i != pos
        ensures Under(this, Repr, entries[i].child, tree[i].child)
        ensures entries[i].child.Repr !! c.Repr
      {
        assert old(Under(this, Repr, entries[i].child, tree[i].child));
      }
    }

    /** Trim the own revisions of the entry at `pos`. */
    method TrimOwn(pos: nat, through: Revision) returns (keys: nat, revisions: nat)
      requires Valid() && pos < |tree| && Ascending(tree[pos].revs)
      modifies this
      ensures Valid() && Repr == old(Repr) && |entries| == |old(entries)|
      ensures tree == old(tree)[pos := TrimEntry(old(tree)[pos], through)]
      ensures Totals(keys, revisions) == TrimReport(old(tree)[pos], through)
    {
      hide Under, KeepFrom, CompactRevs, Gone;
      var e := entries[pos];
      assert Matches(e, tree[pos]);
      if e.revs == [] {
        assert tree[pos := TrimEntry(tree[pos], through)] == tree;
        return 0, 0;
      }
      var kept, dropped, gone := CompactRevisions(e.revs, e.tombstone, through);
      if gone {
        SetOwn(pos, [], false);
        return 1, dropped;
      } else {
        SetOwn(pos, kept, e.tombstone);
        return 0, dropped;
      }
    }

    /** Compact the entry at `pos` and what is below it. */
    method CompactOne(pos: nat, through: Revision) returns (keys: nat, revisions: nat)
      requires Valid() && pos < |tree| && Ascending(tree[pos].revs) && AscendingNode(tree[pos].child)
      modifies Repr
      ensures Valid() && Repr == old(Repr) && |entries| == |old(entries)|
      ensures tree == old(tree)[pos := CompactEntry(old(tree)[pos], through)]
      ensures Totals(keys, revisions) == EntryReport(old(tree)[pos], through)
      decreases Repr, 0, 1
    {
      hide Under, TrimEntry, TrimReport, CompactNode, CompactReport, AscendingNode;
      var k, r := TrimOwn(pos, through);
      TrimKeepsChild(old(tree)[pos], through);
      var k2, r2 := CompactChild(pos, through);
      keys, revisions := k + k2, r + r2;
    }

    /** Compact every entry of this node and those below it, in place. */
    method Compact(through: Revision) returns (keys: nat, revisions: nat)
      requires Valid() && AscendingNode(tree)
      modifies Repr
      ensures Valid() && Repr == old(Repr)
      ensures tree == CompactNode(old(tree), through)
      ensures Totals(keys, revisions) == CompactReport(old(tree), through)
      decreases Repr, 1
    {
      hide Valid, CompactedUpTo, CompactEntry, EntryReport, CompactNode, CompactReport, AscendingNode;
      ghost var before := tree;
      SameLength();
      CompactEnds(before, through);
      keys, revisions := 0, 0;
      var i := 0;
      assert before[..0] == [];
      EmptyCompacts(through);
      while i < |entries|
        invariant 0 <= i <= |entries| == |before|
        invariant Valid() && Repr == old(Repr)
        invariant tree == CompactedUpTo(before, i, through)
        invariant Totals(keys, revisions) == CompactReport(before[..i], through)
      {
        CompactNext(before, i, through);
        AscendingAt(before, i);
        var k, r := CompactOne(i, through);
        keys, revisions := keys + k, revisions + r;
        i := i + 1;
      }
      assert before[..i] == before;
    }

    /**
     Visit the keys at or after `start` (relative to this node; empty once it
     has been passed) in order, until `go`, given everything visited so far,
     says to stop. `path` leads to this node.
     */
    method List(path: Key, start: Key, seen: seq<Item>, go: seq<Item> -> bool) returns (all: seq<Item>, more: bool)
      requires Valid() && WellFormed(tree)
      ensures (all, more) == Visit(Prepend(path, ListNode(tree, start)), seen, go)
      decreases Repr, 1
    {
      hide Under, EntryWellFormed, ListEntries, ListNode, Visit, Prepend, FindPos;
      ghost var goal := Visit(Prepend(path, ListNode(tree, start)), seen, go);
      var i, st := 0, start;
      if |start| > 0 {
        var found;
        i, found := Find(start[0]);
      }
      ListNodeFrom(tree, start, i);
      all := seen;
      while i < |entries|
        invariant 0 <= i <= |entries|
        invariant goal == Visit(Prepend(path, ListEntries(tree[i..], st)), all, go)
      {
        ListEntriesNext(tree, i, st);
        var below := st != [] && Bytes.Less(entries[i].prefix[..MinLen(entries[i].prefix, st)],
            st[..MinLen(entries[i].prefix, st)]);
        assert Matches(entries[i], tree[i]);
        assert below == (st != [] && EntirelyBelow(tree[i], st));
        ghost var next := if below then st else [];
        VisitPrepend(path, ListEntry(tree[i], st), ListEntries(tree[i + 1..], next), all, go);
        if !below {
          all, more := ListOne(i, path, st, all, go);
          if !more {
            return;
          }
          st := [];
        } else {
          VisitNothing(path, all, go);
          ListEntryParts(tree[i], st);
        }
        i := i + 1;
      }
      EndOfEntries(tree, st);
      VisitNothing(path, all, go);
      more := true;
    }

    /** Visit the entry at `i`, which is not entirely below `start`. */
    method ListOne(i: nat, path: Key, start: Key, seen: seq<Item>, go: seq<Item> -> bool)
      returns (all: seq<Item>, more: bool)
      requires Valid() && WellFormed(tree) && i < |entries|
      requires start == [] || !EntirelyBelow(tree[i], start)
      ensures (all, more) == Visit(Prepend(path, ListEntry(tree[i], start)), seen, go)
      decreases Repr, 0
    {
      hide EntryWellFormed, ListEntries, ListNode, ListEntry, Visit, Prepend, EntirelyBelow;
      var e := entries[i];
      assert Matches(e, tree[i]);
      var continues := start != [] && |e.prefix| < |start| && start[..|e.prefix|] == e.prefix;
      var childStart := if continues then start[|e.prefix|..] else [];
      ListEntryParts(tree[i], start);
      ghost var own := if continues then [] else OwnItems(tree[i]);
      ghost var below := Prepend(e.prefix, ListNode(tree[i].child, childStart));
      VisitPrepend(path, own, below, seen, go);
      all, more := seen, true;
      if !continues && e.revs != [] {
        VisitSingle(path, Item(e.prefix, KeyRevs(e.revs, e.tombstone)), seen, go);
        all := seen + [Item(path + e.prefix, KeyRevs(e.revs, e.tombstone))];
        more := go(all);
      } else {
        VisitNothing(path, seen, go);
      }
      if more {
        PrependTwice(path, e.prefix, ListNode(tree[i].child, childStart));
        if e.child != null {
          assert Under(this, Repr, e.child, tree[i].child);
          ChildWellFormed(tree, i);
          all, more := e.child.List(path + e.prefix, childStart, all, go);
        } else {
          EmptyLists(childStart);
          VisitNothing(path + e.prefix, all, go);
        }
      }
    }
  }

  /** The index: the tree, and beside it the entry of the empty key, which has no first byte. */
  class BPTree {
    var root: TreeNode
    var emptyRevs: seq<Revision>
    var emptyTombstone: bool
    var keys: nat   // the number of distinct keys

    ghost predicate Valid()
      reads this, root, root.Repr
    {
      && root.Valid()
      && WellFormed(root.tree)
      && keys == |Map()|
    }

    /** The plain map the index stands for. */
    ghost function Map(): Index
      reads this, root
      requires WellFormed(root.tree)
    {
      WithEmpty(Contents(root.tree), emptyRevs, emptyTombstone)
    }

    constructor ()
      ensures Valid() && Map() == map[] && fresh(root) && fresh(root.Repr)
    {
      root := new TreeNode();
      emptyRevs, emptyTombstone, keys := [], false, 0;
    }

    /** Record that `key` was written at `revision`. */
    method AddRevision(key: Key, revision: Revision, tombstone: bool)
      requires Valid()
      modifies this, root, root.Repr
      ensures Valid() && root == old(root) && fresh(root.Repr - old(root.Repr))
      ensures Map() == IndexAdd(old(Map()), key, revision, tombstone)
    {
      hide WellFormed, Contents, TreeNode.Valid;
      ghost var before, tree := Map(), root.tree;
      NoEmptyKey(tree);
      if |key| == 0 {
        if emptyRevs == [] {
          keys := keys + 1;
        }
        AddEmpty(Contents(tree), emptyRevs, emptyTombstone, revision, tombstone);
        emptyRevs, emptyTombstone := emptyRevs + [revision], tombstone;
      } else {
        var isNew := root.AddRevision(key, revision, tombstone);
        AddRefines(tree, key, revision, tombstone);
        ContentsIsGet(tree, key);
        AddNonempty(Contents(tree), emptyRevs, emptyTombstone, key, revision, tombstone);
        if isNew {
          keys := keys + 1;
        }
      }
    }

    /** Discard history through a revision; report the keys removed and revisions dropped. */
    method Compact(through: Revision) returns (keysRemoved: nat, revisionsDropped: nat)
      requires Valid()
      requires forall k :: k in Map() ==> Ascending(Map()[k].revs)
      modifies this, root, root.Repr
      ensures Valid() && root == old(root) && root.Repr == old(root.Repr)
      ensures Map() == IndexCompact(old(Map()), through)
      ensures keysRemoved == |old(Map())| - |Map()|
      ensures revisionsDropped == old(Revisions()) - Revisions()
    {
      hide WellFormed, Contents, TreeNode.Valid, Ascending, AscendingNode, Items, RevTotal, CompactNode, CompactReport,
           IndexCompact, Gone, CompactRevs, WithEmpty;
      MapAscending();
      ghost var tree := root.tree;
      ghost var oldEmpty := KeyRevs(emptyRevs, emptyTombstone);
      NoEmptyKey(tree);
      WithEmptyCounts(Contents(tree), emptyRevs, emptyTombstone);
      keysRemoved, revisionsDropped := CompactEmpty(through);
      var k, d := root.Compact(through);
      CompactRefines(tree, through);
      CompactBalances(tree, through);
      CountRefines(tree);
      CountRefines(root.tree);
      CompactWithEmpty(Contents(tree), oldEmpty, through);
      NoEmptyKey(root.tree);
      WithEmptyCounts(Contents(root.tree), emptyRevs, emptyTombstone);
      EmptyTombstone(Contents(root.tree), oldEmpty.tombstone, emptyTombstone);
      keysRemoved, revisionsDropped := keysRemoved + k, revisionsDropped + d;
      keys := keys - keysRemoved;
    }

    /** How many revisions the index holds. */
    ghost function Revisions(): nat
      reads this, root
    {
      |emptyRevs| + RevTotal(Items(root.tree))
    }

    lemma MapAscending()
      requires Valid()
      requires forall k :: k in Map() ==> Ascending(Map()[k].revs)
      ensures Ascending(emptyRevs) && AscendingNode(root.tree)
    {
      hide TreeNode.Valid, Contents, Get, WellFormed;
      NoEmptyKey(root.tree);
      forall it | it in Items(root.tree)
        ensures Ascending(it.revs.revs)
      {
        SearchIsExact(root.tree, it.key, it.revs);
        ContentsIsGet(root.tree, it.key);
        assert Map()[it.key] == it.revs;
      }
      ItemsAscending(root.tree);
      if emptyRevs != [] {
        assert Map()[[]].revs == emptyRevs;
      }
    }

    /** The keys a walk from `start` passes are those of the map, in order. */
    lemma WalkIsScan(start: Key)
      requires Valid()
      ensures KeysIn(EmptyItems(start, emptyRevs, emptyTombstone) + From(Items(root.tree), start))
              == Listing.Scan(Map(), start)
    {
      hide TreeNode.Valid, Contents, Get, WellFormed, Items;
      var walk := EmptyItems(start, emptyRevs, emptyTombstone) + From(Items(root.tree), start);
      WalkOrdered(root.tree, start, emptyRevs, emptyTombstone);
      var keys := KeysIn(walk);
      forall k
        ensures k in keys <==> k in Map() && AtMost(start, k)
      {
        WalkMembers(root.tree, start, emptyRevs, emptyTombstone, k);
      }
      Listing.SortedExt(keys, Listing.Scan(Map(), start));
    }

    /** Trim the entry of the empty key. */
    method CompactEmpty(through: Revision) returns (keysRemoved: nat, dropped: nat)
      requires Ascending(emptyRevs)
      modifies this`emptyRevs, this`emptyTombstone
      ensures emptyRevs == TrimmedEmpty(KeyRevs(old(emptyRevs), old(emptyTombstone)), through)
      ensures emptyRevs != [] ==> emptyTombstone == old(emptyTombstone)
      ensures keysRemoved == (if old(emptyRevs) == [] then 0 else 1) - (if emptyRevs == [] then 0 else 1)
      ensures dropped == |old(emptyRevs)| - |emptyRevs|
    {
      hide Gone, CompactRevs;
      keysRemoved, dropped := 0, 0;
      if emptyRevs != [] {
        TrimmedNonempty(KeyRevs(emptyRevs, emptyTombstone), through);
        var kept, n, gone := CompactRevisions(emptyRevs, emptyTombstone, through);
        emptyRevs, dropped := kept, n;
        if gone {
          keysRemoved, emptyTombstone := 1, false;
        }
      }
    }

    /** The latest revision of `key` at or below `at`. */
    method GetLatestRevisionByKey(key: Key, at: Revision) returns (revision: Revision, found: bool)
      requires Valid()
      ensures (if found then Some(revision) else None) == IndexLatest(Map(), key, at)
    {
      hide TreeNode.Valid, WellFormed, Contents, Get, LatestAt;
      var revs;
      NoEmptyKey(root.tree);
      if |key| == 0 {
        revs := emptyRevs;
      } else {
        revs := root.Lookup(key);
        ContentsIsGet(root.tree, key);
      }
      revision, found := ScanBack(revs, at);
    }

    /** Visit every key at or after `start`, in order, until `go` says to stop. */
    method ListRevisionsByKeyRange(start: Key, go: seq<Item> -> bool) returns (all: seq<Item>)
      requires Valid()
      ensures all == Visit(EmptyItems(start, emptyRevs, emptyTombstone) + From(Items(root.tree), start), [], go).0
    {
      hide Items, From, ListNode;
      all := [];
      var more := true;
      VisitConcat(EmptyItems(start, emptyRevs, emptyTombstone), From(Items(root.tree), start), [], go);
      if |start| == 0 && emptyRevs != [] {
        var it := Item([], KeyRevs(emptyRevs, emptyTombstone));
        assert [it][1..] == [];
        all := all + [it];
        if !go(all) {
          return;
        }
      }
      ScanIsExact(root.tree, start);
      PrependNothing(ListNode(root.tree, start));
      all, more := root.List([], start, all, go);
    }

    /** The number of keys. */
    method Len() returns (n: nat)
      requires Valid()
      ensures n == |Map()|
    {
      n := keys;
    }
  }

  function EmptyItems(start: Key, revs: seq<Revision>, tombstone: bool): seq<Item> {
    if start == [] && revs != [] then [Item([], KeyRevs(revs, tombstone))] else []
  }

  function KeysIn(items: seq<Item>): (keys: seq<Key>)
    ensures |keys| == |items|
    ensures forall i :: 0 <= i < |keys| ==> keys[i] == items[i].key
  {
    seq(|items|, i requires 0 <= i < |items| => items[i].key)
  }

  lemma {:induction false} ItemsAscending(n: Node)
    requires forall it :: it in Items(n) ==> Ascending(it.revs.revs)
    ensures AscendingNode(n)
    decreases n
  {
    forall i | 0 <= i < |n|
      ensures Ascending(n[i].revs) && AscendingNode(n[i].child)
    {
      var e := n[i];
      if e.revs != [] {
        var own := Item(e.prefix, KeyRevs(e.revs, e.tombstone));
        assert own in EntryItems(e) by { assert OwnItems(e)[0] == own; }
        InItems(n, own);
      }
      forall it | it in Items(e.child)
        ensures Ascending(it.revs.revs)
      {
        var j :| 0 <= j < |Items(e.child)| && Items(e.child)[j] == it;
        var below := Prepend(e.prefix, Items(e.child))[j];
        assert below in EntryItems(e);
        InItems(n, below);
      }
      ItemsAscending(e.child);
    }
  }

  lemma {:induction false} FromMembers(items: seq<Item>, start: Key, it: Item)
    ensures it in From(items, start) <==> it in items && AtMost(start, it.key)
  {
    if items != [] {
      FromMembers(items[1..], start, it);
      assert items == [items[0]] + items[1..];
    }
  }

  lemma {:induction false} FromOrdered(items: seq<Item>, start: Key)
    requires Ordered(items)
    ensures Ordered(From(items, start))
  {
    if items != [] {
      FromOrdered(items[1..], start);
      var rest := From(items[1..], start);
      forall y | y in rest
        ensures Less(items[0].key, y.key)
      {
        FromMembers(items[1..], start, y);
        var j :| 0 <= j < |items| - 1 && items[1..][j] == y;
        assert items[j + 1] == y;
      }
      ConcatOrdered(if AtMost(start, items[0].key) then [items[0]] else [], rest);
    }
  }

  lemma WalkOrdered(n: Node, start: Key, revs: seq<Revision>, tombstone: bool)
    requires WellFormed(n)
    ensures Listing.Sorted(KeysIn(EmptyItems(start, revs, tombstone) + From(Items(n), start)))
  {
    hide WellFormed, Items, From;
    var a, b := EmptyItems(start, revs, tombstone), From(Items(n), start);
    ItemsOrdered(n);
    FromOrdered(Items(n), start);
    forall y | y in b
      ensures y.key != []
    {
      FromMembers(Items(n), start, y);
      ItemsNonempty(n, y);
    }
    ConcatOrdered(a, b);
  }

  lemma WalkMembers(n: Node, start: Key, revs: seq<Revision>, tombstone: bool, k: Key)
    requires WellFormed(n)
    ensures k in KeysIn(EmptyItems(start, revs, tombstone) + From(Items(n), start))
            <==> k in WithEmpty(Contents(n), revs, tombstone) && AtMost(start, k)
  {
    hide WellFormed, Items, From, Contents, Get;
    var walk := EmptyItems(start, revs, tombstone) + From(Items(n), start);
    ContentsIsGet(n, k);
    NoEmptyKey(n);
    if k in KeysIn(walk) {
      var i :| 0 <= i < |walk| && KeysIn(walk)[i] == k;
      var it := walk[i];
      if it in From(Items(n), start) {
        FromMembers(Items(n), start, it);
        SearchIsExact(n, k, it.revs);
      }
    }
    if k in WithEmpty(Contents(n), revs, tombstone) && AtMost(start, k) {
      var it := if k in Contents(n) then Item(k, Contents(n)[k]) else Item([], KeyRevs(revs, tombstone));
      if k in Contents(n) {
        SearchIsExact(n, k, it.revs);
        FromMembers(Items(n), start, it);
      } else {
        assert walk[0] == it;
      }
      assert it in walk;
      var i :| 0 <= i < |walk| && walk[i] == it;
      assert KeysIn(walk)[i] == k;
    }
  }

  function WithEmpty(ix: Index, revs: seq<Revision>, tombstone: bool): Index {
    if revs == [] then ix else ix[[] := KeyRevs(revs, tombstone)]
  }

  lemma NoEmptyKey(n: Node)
    requires WellFormed(n)
    ensures [] !in Contents(n)
  {
    ContentsIsGet(n, []);
  }

  lemma AddEmpty(ix: Index, revs: seq<Revision>, tomb: bool, revision: Revision, tombstone: bool)
    requires [] !in ix
    ensures WithEmpty(ix, revs + [revision], tombstone) == IndexAdd(WithEmpty(ix, revs, tomb), [], revision, tombstone)
    ensures |WithEmpty(ix, revs + [revision], tombstone)| == |WithEmpty(ix, revs, tomb)| + if revs == [] then 1 else 0
  {
    assert revs == [] ==> revs + [revision] == [revision];
    if revs != [] {
      assert WithEmpty(ix, revs + [revision], tombstone).Keys == WithEmpty(ix, revs, tomb).Keys;
    }
  }

  lemma AddNonempty(ix: Index, revs: seq<Revision>, tomb: bool, key: Key, revision: Revision, tombstone: bool)
    requires key != [] && [] !in ix
    ensures WithEmpty(IndexAdd(ix, key, revision, tombstone), revs, tomb) == IndexAdd(WithEmpty(ix, revs, tomb), key,
        revision, tombstone)
    ensures |WithEmpty(IndexAdd(ix, key, revision, tombstone), revs, tomb)|
            == |WithEmpty(ix, revs, tomb)| + if key in ix then 0 else 1
  {
    WithEmptyCounts(ix, revs, tomb);
    WithEmptyCounts(IndexAdd(ix, key, revision, tombstone), revs, tomb);
    AddCounts(ix, key, revision, tombstone);
  }

  lemma AddCounts(ix: Index, key: Key, revision: Revision, tombstone: bool)
    ensures |IndexAdd(ix, key, revision, tombstone)| == |ix| + if key in ix then 0 else 1
  {
    var a := IndexAdd(ix, key, revision, tombstone);
    assert a.Keys == ix.Keys + {key};
  }

  function TrimmedEmpty(k: KeyRevs, through: Revision): seq<Revision> {
    if k.revs == [] || Gone(k, through) then [] else CompactRevs(k, through).revs
  }

  lemma EmptyTombstone(ix: Index, a: bool, b: bool)
    ensures WithEmpty(ix, [], a) == WithEmpty(ix, [], b)
  {
  }

  lemma WithEmptyCounts(ix: Index, revs: seq<Revision>, tombstone: bool)
    requires [] !in ix
    ensures |WithEmpty(ix, revs, tombstone)| == |ix| + if revs == [] then 0 else 1
  {
  }

  lemma CompactWithEmpty(ix: Index, k: KeyRevs, through: Revision)
    requires [] !in ix
    ensures IndexCompact(WithEmpty(ix, k.revs, k.tombstone), through)
            == WithEmpty(IndexCompact(ix, through), TrimmedEmpty(k, through), k.tombstone)
  {
    hide Gone, CompactRevs;
    var a := IndexCompact(WithEmpty(ix, k.revs, k.tombstone), through);
    var b := WithEmpty(IndexCompact(ix, through), TrimmedEmpty(k, through), k.tombstone);
    TrimmedNonempty(k, through);
    forall x
      ensures x in a <==> x in b
      ensures x in a ==> a[x] == b[x]
    {
    }
  }

  lemma TrimmedNonempty(k: KeyRevs, through: Revision)
    ensures TrimmedEmpty(k, through) == [] <==> k.revs == [] || Gone(k, through)
    ensures k.revs != [] && !Gone(k, through) ==> CompactRevs(k, through) == KeyRevs(TrimmedEmpty(k, through), k.tombstone)
  {
  }

  lemma PrependNothing(items: seq<Item>)
    ensures Prepend([], items) == items
  {
    forall i | 0 <= i < |items|
      ensures [] + items[i].key == items[i].key
    {
    }
  }

  function MinLen(a: Key, b: Key): nat {
    if |a| < |b| then |a| else |b|
  }

  lemma ListNodeFrom(n: Node, start: Key, i: nat)
    requires i == if start == [] then 0 else FindPos(n, start[0])
    ensures ListNode(n, start) == ListEntries(n[i..], start)
  {
    assert start == [] ==> n[i..] == n;
  }

  lemma ListEntriesNext(n: Node, i: nat, start: Key)
    requires i < |n|
    ensures ListEntries(n[i..], start) ==
            ListEntry(n[i], start) + ListEntries(n[i + 1..], if start != [] && EntirelyBelow(n[i], start) then start else [])
  {
    assert n[i..][1..] == n[i + 1..];
  }

  lemma EndOfEntries(n: Node, start: Key)
    ensures ListEntries(n[|n|..], start) == []
  {
  }

  lemma EmptyLists(start: Key)
    ensures ListNode([], start) == []
  {
  }

  lemma VisitNothing(path: Key, seen: seq<Item>, go: seq<Item> -> bool)
    ensures Visit(Prepend(path, []), seen, go) == (seen, true)
  {
  }

  lemma VisitSingle(path: Key, it: Item, seen: seq<Item>, go: seq<Item> -> bool)
    ensures var all := seen + [Item(path + it.key, it.revs)];
            Visit(Prepend(path, [it]), seen, go) == (all, go(all))
  {
    var items := Prepend(path, [it]);
    assert items[1..] == [];
  }

  lemma ChildWellFormed(n: Node, i: nat)
    requires WellFormed(n) && i < |n|
    ensures WellFormed(n[i].child)
  {
    assert EntryWellFormed(n[i]);
  }

  lemma TrimKeepsChild(e: Entry, through: Revision)
    ensures TrimEntry(e, through).child == e.child
  {
  }

  /** A node whose first `i` entries have been compacted. */
  ghost function CompactedUpTo(n: Node, i: nat, through: Revision): Node
    requires i <= |n|
  {
    CompactNode(n[..i], through) + n[i..]
  }

  lemma CompactNext(n: Node, i: nat, through: Revision)
    requires i < |n|
    ensures |CompactedUpTo(n, i, through)| == |n| && CompactedUpTo(n, i, through)[i] == n[i]
    ensures CompactedUpTo(n, i, through)[i := CompactEntry(n[i], through)] == CompactedUpTo(n, i + 1, through)
    ensures CompactReport(n[..i + 1], through) == Plus(CompactReport(n[..i], through), EntryReport(n[i], through))
  {
    hide CompactNode, CompactReport, CompactEntry, EntryReport;
    CompactNodeSnoc(n[..i], n[i], through);
    assert n[..i + 1] == n[..i] + [n[i]];
  }

  lemma AscendingAt(n: Node, i: nat)
    requires AscendingNode(n) && i < |n|
    ensures Ascending(n[i].revs) && AscendingNode(n[i].child)
  {
  }

  lemma CompactEnds(n: Node, through: Revision)
    ensures CompactedUpTo(n, 0, through) == n
    ensures CompactedUpTo(n, |n|, through) == CompactNode(n, through)
  {
    assert n[..|n|] == n;
  }

  lemma EmptyCompacts(through: Revision)
    ensures CompactNode([], through) == [] && CompactReport([], through) == Totals(0, 0)
  {
  }

  lemma NonemptyPrefixes(n: Node)
    requires WellFormed(n)
    ensures forall i :: 0 <= i < |n| ==> n[i].prefix != []
  {
    forall i | 0 <= i < |n|
      ensures n[i].prefix != []
    {
      assert EntryWellFormed(n[i]);
    }
  }
}
