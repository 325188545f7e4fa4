/**
 The prefix tree that stores the key index, as a value. A node is a list of
 entries sorted by the first byte of their prefixes; an entry carries the
 revisions of the key that ends at it and the node of the keys that continue
 past it. `BPTree.dfy` updates such trees in place.
 */
module RadixTree {
  import opened Bytes
  import opened Records
  import opened KeyIndex

  datatype Entry = Entry(
    prefix: Key,
    revs: seq<Revision>,   // empty if no key ends here
    tombstone: bool,
    child: seq<Entry>)     // empty if no key continues past here

  type Node = seq<Entry>

  /** Prefixes are nonempty and siblings have distinct first bytes, in ascending order. */
  ghost predicate WellFormed(n: Node)
    decreases n, 0
  {
    && (forall i :: 0 <= i < |n| ==> EntryWellFormed(n[i]))
    && Siblings(n)
  }

  ghost predicate Siblings(n: Node) {
    forall i, j :: 0 <= i < j < |n| ==> First(n[i]) < First(n[j])
  }

  ghost predicate EntryWellFormed(e: Entry)
    decreases e, 1
  {
    |e.prefix| > 0 && WellFormed(e.child)
  }

  function First(e: Entry): int {
    if |e.prefix| > 0 then e.prefix[0] as int else -1
  }

  /** The index of the first entry whose prefix starts with `b` or a later byte. */
  function FindPos(n: Node, b: byte): (pos: nat)
    ensures pos <= |n|
    ensures forall i :: 0 <= i < pos ==> First(n[i]) < b as int
    ensures pos < |n| ==> First(n[pos]) >= b as int
  {
    if n == [] || First(n[0]) >= b as int then 0 else 1 + FindPos(n[1..], b)
  }

  predicate Found(n: Node, b: byte) {
    FindPos(n, b) < |n| && First(n[FindPos(n, b)]) == b as int
  }

  function CommonLen(a: Key, b: Key): (c: nat)
    ensures c <= |a| && c <= |b|
    ensures a[..c] == b[..c]
    ensures c < |a| && c < |b| ==> a[c] != b[c]
  {
    if |a| == 0 || |b| == 0 || a[0] != b[0] then 0 else 1 + CommonLen(a[1..], b[1..])
  }

  // ---------------------------------------------------------------------
  // Lookup

  function Own(e: Entry): Option<KeyRevs> {
    if e.revs == [] then None else Some(KeyRevs(e.revs, e.tombstone))
  }

  function Get(n: Node, key: Key): Option<KeyRevs>
    decreases |key|, 1
  {
    if key == [] || !Found(n, key[0]) then None else GetIn(n[FindPos(n, key[0])], key)
  }

  function GetIn(e: Entry, key: Key): Option<KeyRevs>
    decreases |key|, 0
  {
    if e.prefix == [] || !HasPrefix(key, e.prefix) then None
    else if |key| == |e.prefix| then Own(e)
    else Get(e.child, key[|e.prefix|..])
  }

  lemma FindPosIs(n: Node, b: byte, pos: nat)
    requires pos <= |n|
    requires forall i :: 0 <= i < pos ==> First(n[i]) < b as int
    requires pos < |n| ==> First(n[pos]) >= b as int
    ensures FindPos(n, b) == pos
  {
  }

  /** Sibling first bytes are distinct, so a search finds the one entry that can match. */
  lemma GetAt(n: Node, i: nat, key: Key)
    requires Siblings(n) && i < |n| && key != [] && First(n[i]) == key[0] as int
    ensures Found(n, key[0]) && FindPos(n, key[0]) == i
    ensures Get(n, key) == GetIn(n[i], key)
  {
    FindPosIs(n, key[0], i);
  }

  lemma GetMiss(n: Node, key: Key)
    requires Siblings(n)
    requires forall i :: 0 <= i < |n| ==> key != [] ==> First(n[i]) != key[0] as int
    ensures Get(n, key).None?
  {
  }

  // ---------------------------------------------------------------------
  // Insertion

  function Add(n: Node, key: Key, revision: Revision, tombstone: bool): Node
    requires key != []
    decreases |key|, 1
  {
    var pos := FindPos(n, key[0]);
    if Found(n, key[0]) then n[pos := AddIn(n[pos], key, revision, tombstone)]
    else n[..pos] + [Entry(key, [revision], tombstone, [])] + n[pos..]
  }

  /** The part of an entry past its first `c` bytes. */
  function Remainder(e: Entry, c: nat): Entry
    requires c <= |e.prefix|
  {
    e.(prefix := e.prefix[c..])
  }

  function AddIn(e: Entry, key: Key, revision: Revision, tombstone: bool): Entry
    requires key != [] && e.prefix != [] && e.prefix[0] == key[0]
    decreases |key|, 0
  {
    var c := CommonLen(e.prefix, key);
    if c == |e.prefix| then
      if c == |key| then e.(revs := e.revs + [revision], tombstone := tombstone)
      else e.(child := Add(e.child, key[c..], revision, tombstone))
    else
      // The key diverges inside the prefix: split the entry there.
      if c == |key| then Entry(key, [revision], tombstone, [Remainder(e, c)])
      else Entry(e.prefix[..c], [], false, Add([Remainder(e, c)], key[c..], revision, tombstone))
  }

  lemma AddInKeepsFirst(e: Entry, key: Key, revision: Revision, tombstone: bool)
    requires key != [] && e.prefix != [] && e.prefix[0] == key[0]
    ensures var e' := AddIn(e, key, revision, tombstone);
            e'.prefix != [] && e'.prefix[0] == key[0]
  {
    CommonLenPositive(e.prefix, key);
  }

  lemma CommonLenPositive(a: Key, b: Key)
    requires a != [] && b != [] && a[0] == b[0]
    ensures CommonLen(a, b) > 0
  {
  }

  lemma InsertKeepsOrder(n: Node, e: Entry)
    requires WellFormed(n) && EntryWellFormed(e) && !Found(n, e.prefix[0])
    ensures var pos := FindPos(n, e.prefix[0]);
            WellFormed(n[..pos] + [e] + n[pos..])
  {
    var pos := FindPos(n, e.prefix[0]);
    var n' := n[..pos] + [e] + n[pos..];
    forall i | 0 <= i < |n'|
      ensures EntryWellFormed(n'[i])
    {
      if i < pos {
        assert n'[i] == n[i];
      } else if i > pos {
        assert n'[i] == n[i - 1];
      }
    }
    forall i, j | 0 <= i < j < |n'|
      ensures First(n'[i]) < First(n'[j])
    {
      if j > pos {
        assert n'[j] == n[j - 1];
        assert First(n[pos]) <= First(n[j - 1]);
        if i < pos {
          assert n'[i] == n[i];
        }
      }
    }
  }

  lemma ReplaceKeepsOrder(n: Node, pos: nat, e: Entry)
    requires WellFormed(n) && pos < |n| && EntryWellFormed(e) && First(e) == First(n[pos])
    ensures WellFormed(n[pos := e])
  {
  }

  /** Splitting and inserting keep sibling first bytes distinct and sorted. */
  lemma {:induction false} AddKeepsWellFormed(n: Node, key: Key, revision: Revision, tombstone: bool)
    requires WellFormed(n) && key != []
    ensures WellFormed(Add(n, key, revision, tombstone))
    decreases |key|, 1
  {
    var pos := FindPos(n, key[0]);
    if Found(n, key[0]) {
      assert EntryWellFormed(n[pos]);
      AddInKeepsWellFormed(n[pos], key, revision, tombstone);
      ReplaceKeepsOrder(n, pos, AddIn(n[pos], key, revision, tombstone));
    } else {
      InsertKeepsOrder(n, Entry(key, [revision], tombstone, []));
    }
  }

  lemma {:induction false} AddInKeepsWellFormed(e: Entry, key: Key, revision: Revision, tombstone: bool)
    requires EntryWellFormed(e) && key != [] && e.prefix[0] == key[0]
    ensures EntryWellFormed(AddIn(e, key, revision, tombstone))
    ensures First(AddIn(e, key, revision, tombstone)) == key[0] as int
    decreases |key|, 0
  {
    var c := CommonLen(e.prefix, key);
    CommonLenPositive(e.prefix, key);
    if c == |e.prefix| {
      if c < |key| {
        AddKeepsWellFormed(e.child, key[c..], revision, tombstone);
      }
    } else {
      assert WellFormed([Remainder(e, c)]);
      if c < |key| {
        AddKeepsWellFormed([Remainder(e, c)], key[c..], revision, tombstone);
      }
    }
  }

  /** What a key's entry becomes when a revision is added to it. */
  function Extended(old_: Option<KeyRevs>, revision: Revision, tombstone: bool): KeyRevs {
    KeyRevs((if old_.Some? then old_.value.revs else []) + [revision], tombstone)
  }

  lemma PrefixSplits(key: Key, prefix: Key, c: nat)
    requires c <= |prefix| && c <= |key| && key[..c] == prefix[..c]
    ensures HasPrefix(key[c..], prefix[c..]) <==> HasPrefix(key, prefix)
    ensures HasPrefix(key, prefix) ==> key[c..][|prefix| - c..] == key[|prefix|..]
  {
    assert key == key[..c] + key[c..] && prefix == prefix[..c] + prefix[c..];
    if |key| >= |prefix| {
      assert key[..|prefix|] == key[..c] + key[c..][..|prefix| - c];
    }
  }

  /** Looking below a split finds what looking in the unsplit entry found. */
  lemma GetInRemainder(e: Entry, c: nat, key: Key)
    requires EntryWellFormed(e) && 0 < c < |e.prefix| && |key| > c && key[..c] == e.prefix[..c]
    ensures Get([Remainder(e, c)], key[c..]) == GetIn(e, key)
  {
    var rest := Remainder(e, c);
    var k := key[c..];
    assert WellFormed([rest]);
    PrefixSplits(key, e.prefix, c);
    if First(rest) == k[0] as int {
      GetAt([rest], 0, k);
    } else {
      GetMiss([rest], k);
      assert k[0] != rest.prefix[0];
    }
  }

  lemma KeysDiffer(key: Key, k: Key, c: nat)
    requires c <= |key| && c <= |k| && key[..c] == k[..c]
    ensures key == k <==> key[c..] == k[c..]
  {
    assert key == key[..c] + key[c..] && k == k[..c] + k[c..];
  }

  /** Adding a revision changes one key's entry and no other. */
  lemma {:induction false} GetAdd(n: Node, key: Key, revision: Revision, tombstone: bool, k: Key)
    requires WellFormed(n) && key != []
    ensures Get(Add(n, key, revision, tombstone), k) ==
            if k == key then Some(Extended(Get(n, key), revision, tombstone)) else Get(n, k)
    decreases |key|, 1
  {
    var n' := Add(n, key, revision, tombstone);
    AddKeepsWellFormed(n, key, revision, tombstone);
    var pos := FindPos(n, key[0]);
    if k == [] {
    } else if k[0] != key[0] {
      GetAddElsewhere(n, key, revision, tombstone, k);
    } else if Found(n, key[0]) {
      AddInKeepsFirst(n[pos], key, revision, tombstone);
      GetAt(n, pos, k);
      GetAt(n', pos, k);
      assert EntryWellFormed(n[pos]);
      GetInAdd(n[pos], key, revision, tombstone, k);
    } else {
      GetMiss(n, k);
      assert [] + [revision] == [revision];
      assert n'[pos] == Entry(key, [revision], tombstone, []);
      GetAt(n', pos, k);
      GetInLeaf(key, revision, tombstone, k);
    }
  }

  lemma GetInLeaf(key: Key, revision: Revision, tombstone: bool, k: Key)
    requires key != []
    ensures GetIn(Entry(key, [revision], tombstone, []), k) == if k == key then Some(KeyRevs([revision], tombstone)) else None
  {
    if HasPrefix(k, key) && |k| == |key| {
      assert k[..|key|] == k;
    }
  }

  lemma GetReplaced(n: Node, pos: nat, e: Entry, k: Key)
    requires Siblings(n) && pos < |n| && Siblings(n[pos := e]) && First(e) == First(n[pos])
    requires k != [] && First(e) != k[0] as int
    ensures Get(n[pos := e], k) == Get(n, k)
  {
    var n' := n[pos := e];
    if Found(n, k[0]) {
      var i := FindPos(n, k[0]);
      assert n'[i] == n[i];
      GetAt(n, i, k);
      GetAt(n', i, k);
    } else {
      NoFirst(n, k[0]);
      GetMiss(n, k);
      GetMiss(n', k);
    }
  }

  function Inserted(n: Node, pos: nat, e: Entry): Node
    requires pos <= |n|
  {
    n[..pos] + [e] + n[pos..]
  }

  lemma GetInserted(n: Node, pos: nat, e: Entry, k: Key)
    requires Siblings(n) && pos <= |n| && Siblings(Inserted(n, pos, e))
    requires k != [] && First(e) != k[0] as int
    ensures Get(Inserted(n, pos, e), k) == Get(n, k)
  {
    var n' := Inserted(n, pos, e);
    if Found(n, k[0]) {
      var i := FindPos(n, k[0]);
      var i' := if i < pos then i else i + 1;
      assert n'[i'] == n[i];
      GetAt(n, i, k);
      GetAt(n', i', k);
    } else {
      NoFirst(n, k[0]);
      GetMiss(n, k);
      forall i | 0 <= i < |n'|
        ensures First(n'[i]) != k[0] as int
      {
        assert n'[i] == if i < pos then n[i] else if i == pos then e else n[i - 1];
      }
      GetMiss(n', k);
    }
  }

  lemma GetAddElsewhere(n: Node, key: Key, revision: Revision, tombstone: bool, k: Key)
    requires WellFormed(n) && key != [] && k != [] && k[0] != key[0]
    requires WellFormed(Add(n, key, revision, tombstone))
    ensures Get(Add(n, key, revision, tombstone), k) == Get(n, k)
  {
    hide EntryWellFormed, Get;
    var pos := FindPos(n, key[0]);
    if Found(n, key[0]) {
      AddInKeepsFirst(n[pos], key, revision, tombstone);
      GetReplaced(n, pos, AddIn(n[pos], key, revision, tombstone), k);
    } else {
      GetInserted(n, pos, Entry(key, [revision], tombstone, []), k);
    }
  }

  lemma NoFirst(n: Node, b: byte)
    requires Siblings(n) && !Found(n, b)
    ensures forall i :: 0 <= i < |n| ==> First(n[i]) != b as int
  {
    var pos := FindPos(n, b);
    forall i | pos <= i < |n|
      ensures First(n[i]) != b as int
    {
      assert First(n[pos]) <= First(n[i]);
    }
  }

  lemma {:induction false} GetInAdd(e: Entry, key: Key, revision: Revision, tombstone: bool, k: Key)
    requires EntryWellFormed(e) && key != [] && k != [] && e.prefix[0] == key[0] == k[0]
    ensures GetIn(AddIn(e, key, revision, tombstone), k) ==
            if k == key then Some(Extended(GetIn(e, key), revision, tombstone)) else GetIn(e, k)
    decreases |key|, 0
  {
    var c := CommonLen(e.prefix, key);
    CommonLenPositive(e.prefix, key);
    if c == |e.prefix| {
      GetInAddBelow(e, key, revision, tombstone, k);
    } else {
      GetInAddSplit(e, key, revision, tombstone, k);
    }
  }

  lemma {:induction false} GetInAddBelow(e: Entry, key: Key, revision: Revision, tombstone: bool, k: Key)
    requires EntryWellFormed(e) && HasPrefix(key, e.prefix) && CommonLen(e.prefix, key) == |e.prefix|
    ensures GetIn(AddIn(e, key, revision, tombstone), k) ==
            if k == key then Some(Extended(GetIn(e, key), revision, tombstone)) else GetIn(e, k)
    decreases |key|, -1
  {
    var c := |e.prefix|;
    assert key == key[..c] + key[c..];
    if HasPrefix(k, e.prefix) {
      KeysDiffer(key, k, c);
      if |key| > c && |k| > c {
        GetAdd(e.child, key[c..], revision, tombstone, k[c..]);
      }
    }
  }

  lemma {:induction false} GetInAddSplit(e: Entry, key: Key, revision: Revision, tombstone: bool, k: Key)
    requires EntryWellFormed(e) && key != []
    requires 0 < CommonLen(e.prefix, key) < |e.prefix|
    ensures GetIn(AddIn(e, key, revision, tombstone), k) ==
            if k == key then Some(Extended(GetIn(e, key), revision, tombstone)) else GetIn(e, k)
    decreases |key|, -1
  {
    var c := CommonLen(e.prefix, key);
    var p := e.prefix[..c];
    assert key[..c] == p;
    assert [] + [revision] == [revision];
    NotPrefixed(e, key);
    if !HasPrefix(k, p) {
      PrefixOfPrefix(k, e.prefix, c);
    } else {
      KeysDiffer(key, k, c);
      if |k| > c {
        GetInRemainder(e, c, k);
        if |key| > c {
          assert WellFormed([Remainder(e, c)]);
          GetAdd([Remainder(e, c)], key[c..], revision, tombstone, k[c..]);
          GetInRemainder(e, c, key);
        }
      }
    }
  }

  lemma PrefixOfPrefix(k: Key, prefix: Key, c: nat)
    requires c <= |prefix|
    ensures HasPrefix(k, prefix) ==> HasPrefix(k, prefix[..c])
  {
    if HasPrefix(k, prefix) {
      assert k[..c] == k[..|prefix|][..c];
    }
  }

  /** A key that diverges inside an entry's prefix is not in the entry. */
  lemma NotPrefixed(e: Entry, key: Key)
    requires CommonLen(e.prefix, key) < |e.prefix|
    ensures !HasPrefix(key, e.prefix)
    ensures GetIn(e, key).None?
  {
    var c := CommonLen(e.prefix, key);
    if c < |key| && |key| >= |e.prefix| {
      assert key[..|e.prefix|][c] == key[c] != e.prefix[c];
    }
  }

  // ---------------------------------------------------------------------
  // What a tree holds

  datatype Item = Item(key: Key, revs: KeyRevs)

  function Prepend(p: Key, items: seq<Item>): (r: seq<Item>)
    ensures |r| == |items|
    ensures forall i :: 0 <= i < |r| ==> r[i] == Item(p + items[i].key, items[i].revs)
  {
    seq(|items|, i requires 0 <= i < |items| => Item(p + items[i].key, items[i].revs))
  }

  /** Every key and its revisions, in tree order. */
  function Items(n: Node): seq<Item>
    decreases n, 0
  {
    if n == [] then [] else EntryItems(n[0]) + Items(n[1..])
  }

  function OwnItems(e: Entry): seq<Item> {
    if e.revs == [] then [] else [Item(e.prefix, KeyRevs(e.revs, e.tombstone))]
  }

  function EntryItems(e: Entry): seq<Item>
    decreases e, 1
  {
    OwnItems(e) + Prepend(e.prefix, Items(e.child))
  }

  lemma {:induction false} InItems(n: Node, it: Item)
    ensures it in Items(n) <==> exists i :: 0 <= i < |n| && it in EntryItems(n[i])
    decreases |n|
  {
    if n != [] {
      InItems(n[1..], it);
      if it in Items(n[1..]) {
        var i :| 0 <= i < |n| - 1 && it in EntryItems(n[1..][i]);
        assert it in EntryItems(n[i + 1]);
      }
      if i :| 0 < i < |n| && it in EntryItems(n[i]) {
        assert it in EntryItems(n[1..][i - 1]);
      }
    }
  }

  lemma InPrepend(p: Key, items: seq<Item>, it: Item)
    ensures it in Prepend(p, items) <==> HasPrefix(it.key, p) && Item(it.key[|p|..], it.revs) in items
  {
    var r := Prepend(p, items);
    if it in r {
      var i :| 0 <= i < |r| && r[i] == it;
      assert it.key[..|p|] == p && it.key[|p|..] == items[i].key;
    }
    if HasPrefix(it.key, p) && Item(it.key[|p|..], it.revs) in items {
      var i :| 0 <= i < |items| && items[i] == Item(it.key[|p|..], it.revs);
      assert it.key == p + it.key[|p|..];
      assert r[i] == it;
    }
  }

  lemma EntryItemPrefixed(e: Entry, it: Item)
    requires it in EntryItems(e)
    ensures HasPrefix(it.key, e.prefix)
  {
    InPrepend(e.prefix, Items(e.child), it);
    assert e.prefix[..|e.prefix|] == e.prefix;
  }

  /** No entry holds the empty key. */
  lemma {:induction false} ItemsNonempty(n: Node, it: Item)
    requires WellFormed(n) && it in Items(n)
    ensures it.key != []
  {
    InItems(n, it);
    var i :| 0 <= i < |n| && it in EntryItems(n[i]);
    assert EntryWellFormed(n[i]);
    EntryItemPrefixed(n[i], it);
  }

  /** Search finds exactly the keys the tree holds, with their revisions. */
  lemma {:induction false} SearchIsExact(n: Node, k: Key, v: KeyRevs)
    requires WellFormed(n)
    ensures Get(n, k) == Some(v) <==> Item(k, v) in Items(n)
    decreases |k|, 1
  {
    var it := Item(k, v);
    InItems(n, it);
    if k == [] {
      if it in Items(n) {
        ItemsNonempty(n, it);
      }
    } else {
      forall i | 0 <= i < |n| && it in EntryItems(n[i])
        ensures First(n[i]) == k[0] as int
      {
        assert EntryWellFormed(n[i]);
        EntryItemPrefixed(n[i], it);
        assert k[..|n[i].prefix|][0] == k[0];
      }
      if i :| 0 <= i < |n| && First(n[i]) == k[0] as int {
        GetAt(n, i, k);
        assert EntryWellFormed(n[i]);
        SearchInIsExact(n[i], k, v);
        forall j | 0 <= j < |n| && First(n[j]) == k[0] as int
          ensures j == i
        {
          GetAt(n, j, k);
        }
      } else {
        GetMiss(n, k);
      }
    }
  }

  lemma {:induction false} SearchInIsExact(e: Entry, k: Key, v: KeyRevs)
    requires EntryWellFormed(e) && k != []
    ensures GetIn(e, k) == Some(v) <==> Item(k, v) in EntryItems(e)
    decreases |k|, 0
  {
    var it := Item(k, v);
    InPrepend(e.prefix, Items(e.child), it);
    if HasPrefix(k, e.prefix) {
      if |k| == |e.prefix| {
        assert k == k[..|k|] == e.prefix;
        var rest := Item(k[|e.prefix|..], v);
        if rest in Items(e.child) {
          ItemsNonempty(e.child, rest);
        }
      } else {
        SearchIsExact(e.child, k[|e.prefix|..], v);
      }
    } else {
      assert e.prefix[..|e.prefix|] == e.prefix;
      assert k != e.prefix;
    }
  }

  ghost predicate Ordered(items: seq<Item>) {
    forall i, j :: 0 <= i < j < |items| ==> Less(items[i].key, items[j].key)
  }

  lemma PrependOrdered(p: Key, items: seq<Item>)
    requires Ordered(items)
    ensures Ordered(Prepend(p, items))
  {
    forall i, j | 0 <= i < j < |items|
      ensures Less(p + items[i].key, p + items[j].key)
    {
      LessCancel(p, items[i].key, items[j].key);
    }
  }

  lemma ConcatOrdered(a: seq<Item>, b: seq<Item>)
    requires Ordered(a) && Ordered(b)
    requires forall x, y :: x in a && y in b ==> Less(x.key, y.key)
    ensures Ordered(a + b)
  {
    var c := a + b;
    forall i, j | 0 <= i < j < |c|
      ensures Less(c[i].key, c[j].key)
    {
      if i < |a| <= j {
        assert c[i] in a && c[j] in b;
      }
    }
  }

  /** The walk visits keys in strictly ascending byte order, so each once. */
  lemma {:induction false} ItemsOrdered(n: Node)
    requires WellFormed(n)
    ensures Ordered(Items(n))
    decreases n, 0
  {
    if n != [] {
      assert EntryWellFormed(n[0]);
      EntryItemsOrdered(n[0]);
      var rest := n[1..];
      assert WellFormed(rest);
      ItemsOrdered(rest);
      forall x, y | x in EntryItems(n[0]) && y in Items(rest)
        ensures Less(x.key, y.key)
      {
        InItems(rest, y);
        var i :| 0 <= i < |rest| && y in EntryItems(rest[i]);
        assert EntryWellFormed(rest[i]);
        EntryItemPrefixed(n[0], x);
        EntryItemPrefixed(rest[i], y);
        assert First(n[0]) < First(n[i + 1]);
        assert x.key[..|n[0].prefix|][0] == x.key[0] && y.key[..|rest[i].prefix|][0] == y.key[0];
      }
      ConcatOrdered(EntryItems(n[0]), Items(rest));
    }
  }

  lemma {:induction false} EntryItemsOrdered(e: Entry)
    requires EntryWellFormed(e)
    ensures Ordered(EntryItems(e))
    decreases e, 1
  {
    ItemsOrdered(e.child);
    var below := Prepend(e.prefix, Items(e.child));
    PrependOrdered(e.prefix, Items(e.child));
    forall x, y | x in OwnItems(e) && y in below
      ensures Less(x.key, y.key)
    {
      var i :| 0 <= i < |below| && below[i] == y;
      ItemsNonempty(e.child, Items(e.child)[i]);
      LessByExtension(e.prefix, Items(e.child)[i].key);
    }
    ConcatOrdered(OwnItems(e), below);
  }

  // ---------------------------------------------------------------------
  // The map a tree stands for

  ghost function Contents(n: Node): Index
    requires WellFormed(n)
  {
    map k | k in KeysOf(n) && Get(n, k).Some? :: Get(n, k).value
  }

  function KeysOf(n: Node): set<Key> {
    set it | it in Items(n) :: it.key
  }

  lemma ContentsIsGet(n: Node, k: Key)
    requires WellFormed(n)
    ensures k in Contents(n) <==> Get(n, k).Some?
    ensures k in Contents(n) ==> Get(n, k) == Some(Contents(n)[k])
  {
    if Get(n, k).Some? {
      SearchIsExact(n, k, Get(n, k).value);
      assert Item(k, Get(n, k).value).key in KeysOf(n);
    }
  }

  /** Adding a revision to the tree adds it to the map. */
  lemma AddRefines(n: Node, key: Key, revision: Revision, tombstone: bool)
    requires WellFormed(n) && key != []
    ensures WellFormed(Add(n, key, revision, tombstone))
    ensures Contents(Add(n, key, revision, tombstone)) == IndexAdd(Contents(n), key, revision, tombstone)
  {
    hide Add, Get, WellFormed, Contents;
    AddKeepsWellFormed(n, key, revision, tombstone);
    var n' := Add(n, key, revision, tombstone);
    var a, b := Contents(n'), IndexAdd(Contents(n), key, revision, tombstone);
    ContentsIsGet(n, key);
    forall k
      ensures k in a <==> k in b
      ensures k in a ==> a[k] == b[k]
    {
      GetAdd(n, key, revision, tombstone, k);
      ContentsIsGet(n, k);
      ContentsIsGet(n', k);
    }
  }

  /** Reading the latest revision in the tree reads it in the map. */
  lemma LatestRefines(n: Node, key: Key, at: Revision)
    requires WellFormed(n)
    ensures LatestAt(if Get(n, key).Some? then Get(n, key).value.revs else [], at) == IndexLatest(Contents(n), key, at)
  {
    ContentsIsGet(n, key);
  }

  /** A tree holds as many keys as its map. */
  lemma CountRefines(n: Node)
    requires WellFormed(n)
    ensures |Items(n)| == |Contents(n)|
  {
    ItemsOrdered(n);
    DistinctKeys(Items(n));
    assert Contents(n).Keys == KeysOf(n) by {
      forall k
        ensures k in Contents(n) <==> k in KeysOf(n)
      {
        ContentsIsGet(n, k);
        if k in KeysOf(n) {
          var it :| it in Items(n) && it.key == k;
          SearchIsExact(n, k, it.revs);
        }
      }
    }
  }

  lemma {:induction false} DistinctKeys(items: seq<Item>)
    requires Ordered(items)
    ensures |set it | it in items :: it.key| == |items|
  {
    if items != [] {
      var m := |items| - 1;
      var front, last := items[..m], items[m];
      DistinctKeys(front);
      var keys := set it | it in front :: it.key;
      assert last.key !in keys by {
        forall it | it in front
          ensures it.key != last.key
        {
          var i :| 0 <= i < m && items[i] == it;
          LessIrreflexive(it.key);
        }
      }
      assert items == front + [last];
      assert (set it | it in items :: it.key) == keys + {last.key};
    }
  }

  // ---------------------------------------------------------------------
  // Compaction

  /** An entry's own revisions trimmed; a key that is gone leaves an entry without one. */
  function TrimEntry(e: Entry, through: Revision): Entry {
    if e.revs == [] then e
    else if Gone(KeyRevs(e.revs, e.tombstone), through) then e.(revs := [], tombstone := false)
    else e.(revs := CompactRevs(KeyRevs(e.revs, e.tombstone), through).revs)
  }

  function CompactNode(n: Node, through: Revision): (r: Node)
    ensures |r| == |n|
    decreases n, 0
  {
    if n == [] then [] else [CompactEntry(n[0], through)] + CompactNode(n[1..], through)
  }

  function CompactEntry(e: Entry, through: Revision): Entry
    decreases e, 1
  {
    TrimEntry(e, through).(child := CompactNode(e.child, through))
  }

  lemma {:induction false} CompactNodeAt(n: Node, through: Revision, i: nat)
    requires i < |n|
    ensures CompactNode(n, through)[i] == CompactEntry(n[i], through)
    decreases |n|
  {
    if i > 0 {
      CompactNodeAt(n[1..], through, i - 1);
    }
  }

  lemma {:induction false} CompactKeepsWellFormed(n: Node, through: Revision)
    requires WellFormed(n)
    ensures WellFormed(CompactNode(n, through))
    decreases n, 0
  {
    var n' := CompactNode(n, through);
    forall i | 0 <= i < |n|
      ensures EntryWellFormed(n'[i]) && First(n'[i]) == First(n[i])
    {
      CompactNodeAt(n, through, i);
      assert EntryWellFormed(n[i]);
      CompactKeepsWellFormed(n[i].child, through);
    }
  }

  /** What compaction leaves of one key. */
  function Compacted(v: Option<KeyRevs>, through: Revision): Option<KeyRevs> {
    if v.None? || Gone(v.value, through) then None else Some(CompactRevs(v.value, through))
  }

  lemma {:induction false} GetCompact(n: Node, through: Revision, k: Key)
    requires WellFormed(n)
    ensures Get(CompactNode(n, through), k) == Compacted(Get(n, k), through)
    decreases |k|, 1
  {
    var n' := CompactNode(n, through);
    CompactKeepsWellFormed(n, through);
    if k != [] {
      if i :| 0 <= i < |n| && First(n[i]) == k[0] as int {
        CompactNodeAt(n, through, i);
        GetAt(n, i, k);
        GetAt(n', i, k);
        assert EntryWellFormed(n[i]);
        GetInCompact(n[i], through, k);
      } else {
        GetMiss(n, k);
        forall i | 0 <= i < |n'|
          ensures First(n'[i]) == First(n[i])
        {
          CompactNodeAt(n, through, i);
        }
        GetMiss(n', k);
      }
    }
  }

  lemma {:induction false} GetInCompact(e: Entry, through: Revision, k: Key)
    requires EntryWellFormed(e) && k != []
    ensures GetIn(CompactEntry(e, through), k) == Compacted(GetIn(e, k), through)
    decreases |k|, 0
  {
    if HasPrefix(k, e.prefix) && |k| > |e.prefix| {
      GetCompact(e.child, through, k[|e.prefix|..]);
    }
  }

  /** Compacting the tree compacts the map. */
  lemma CompactRefines(n: Node, through: Revision)
    requires WellFormed(n)
    ensures WellFormed(CompactNode(n, through))
    ensures Contents(CompactNode(n, through)) == IndexCompact(Contents(n), through)
  {
    CompactKeepsWellFormed(n, through);
    hide CompactNode, Get, WellFormed, Contents, Gone, CompactRevs;
    var n' := CompactNode(n, through);
    var a, b := Contents(n'), IndexCompact(Contents(n), through);
    forall k
      ensures k in a <==> k in b
      ensures k in a ==> a[k] == b[k]
    {
      GetCompact(n, through, k);
      ContentsIsGet(n, k);
      ContentsIsGet(n', k);
    }
  }

  datatype Totals = Totals(keys: nat, revisions: nat)

  function Plus(a: Totals, b: Totals): Totals {
    Totals(a.keys + b.keys, a.revisions + b.revisions)
  }

  /** How many revisions a list of items holds. */
  function RevTotal(items: seq<Item>): nat {
    if items == [] then 0 else |items[0].revs.revs| + RevTotal(items[1..])
  }

  /** What compaction reports for an entry's own key: keys removed and revisions dropped. */
  function TrimReport(e: Entry, through: Revision): Totals {
    if e.revs == [] then Totals(0, 0)
    else if Gone(KeyRevs(e.revs, e.tombstone), through) then Totals(1, |e.revs|)
    else Totals(0, KeepFrom(e.revs, through))
  }

  function CompactReport(n: Node, through: Revision): Totals
    decreases n, 0
  {
    if n == [] then Totals(0, 0)
    else Plus(EntryReport(n[0], through), CompactReport(n[1..], through))
  }

  function EntryReport(e: Entry, through: Revision): Totals
    decreases e, 1
  {
    Plus(TrimReport(e, through), CompactReport(e.child, through))
  }

  lemma {:induction false} RevTotalConcat(a: seq<Item>, b: seq<Item>)
    ensures RevTotal(a + b) == RevTotal(a) + RevTotal(b)
  {
    if a == [] {
      assert a + b == b;
    } else {
      assert (a + b)[1..] == a[1..] + b;
      RevTotalConcat(a[1..], b);
    }
  }

  lemma {:induction false} RevTotalPrepend(p: Key, items: seq<Item>)
    ensures RevTotal(Prepend(p, items)) == RevTotal(items)
  {
    if items != [] {
      assert Prepend(p, items)[1..] == Prepend(p, items[1..]);
      RevTotalPrepend(p, items[1..]);
    }
  }

  lemma EntryTotals(e: Entry)
    ensures |EntryItems(e)| == |OwnItems(e)| + |Items(e.child)|
    ensures RevTotal(EntryItems(e)) == |e.revs| + RevTotal(Items(e.child))
  {
    RevTotalConcat(OwnItems(e), Prepend(e.prefix, Items(e.child)));
    RevTotalPrepend(e.prefix, Items(e.child));
    assert OwnItems(e) != [] ==> OwnItems(e)[1..] == [];
  }

  ghost predicate Balances(report: Totals, after: seq<Item>, before: seq<Item>) {
    && report.keys + |after| == |before|
    && report.revisions + RevTotal(after) == RevTotal(before)
  }

  lemma BalancesConcat(r: Totals, a: seq<Item>, b: seq<Item>, r2: Totals, a2: seq<Item>, b2: seq<Item>)
    requires Balances(r, a, b) && Balances(r2, a2, b2)
    ensures Balances(Plus(r, r2), a + a2, b + b2)
  {
    RevTotalConcat(a, a2);
    RevTotalConcat(b, b2);
  }

  /** Conservation: what compaction reports removed, and what is left, is what there was. */
  lemma {:induction false} CompactBalances(n: Node, through: Revision)
    ensures Balances(CompactReport(n, through), Items(CompactNode(n, through)), Items(n))
    decreases n, 0
  {
    if n != [] {
      EntryBalances(n[0], through);
      CompactBalances(n[1..], through);
      var n' := CompactNode(n, through);
      assert n'[0] == CompactEntry(n[0], through) && n'[1..] == CompactNode(n[1..], through);
      hide Balances, EntryItems, CompactEntry, EntryReport, RevTotal;
      BalancesConcat(EntryReport(n[0], through), EntryItems(n'[0]), EntryItems(n[0]),
                     CompactReport(n[1..], through), Items(n'[1..]), Items(n[1..]));
    }
  }

  lemma {:induction false} EntryBalances(e: Entry, through: Revision)
    ensures Balances(EntryReport(e, through), EntryItems(CompactEntry(e, through)), EntryItems(e))
    decreases e, 1
  {
    hide EntryItems, Items, CompactNode, CompactReport, RevTotal;
    var e' := CompactEntry(e, through);
    EntryTotals(e);
    EntryTotals(e');
    CompactBalances(e.child, through);
  }

  // ---------------------------------------------------------------------
  // Ordered scans

  /** Whether the whole subtree of an entry sorts before `start`. */
  predicate EntirelyBelow(e: Entry, start: Key) {
    var m := if |e.prefix| < |start| then |e.prefix| else |start|;
    Less(e.prefix[..m], start[..m])
  }

  /** Whether `start` continues below the entry. */
  predicate ContinuesBelow(e: Entry, start: Key) {
    |e.prefix| < |start| && start[..|e.prefix|] == e.prefix
  }

  /** The items the walk of an entry visits, with `start` empty once it has been passed. */
  function ListEntry(e: Entry, start: Key): seq<Item>
    decreases e, 1
  {
    if start == [] then EntryItems(e)
    else if EntirelyBelow(e, start) then []
    else if ContinuesBelow(e, start) then Prepend(e.prefix, ListNode(e.child, start[|e.prefix|..]))
    else EntryItems(e)
  }

  /** Walk entries in order; all after the first one not entirely below `start` qualify. */
  function ListEntries(n: Node, start: Key): seq<Item>
    decreases n, 0
  {
    if n == [] then []
    else ListEntry(n[0], start) + ListEntries(n[1..], if start != [] && EntirelyBelow(n[0], start) then start else [])
  }

  /** The walk of a node: entries whose first byte is below `start`'s are skipped unseen. */
  function ListNode(n: Node, start: Key): seq<Item>
    decreases n, 1
  {
    if start == [] then ListEntries(n, []) else ListEntries(n[FindPos(n, start[0])..], start)
  }

  /** The items at or after `start`. */
  function From(items: seq<Item>, start: Key): seq<Item> {
    if items == [] then []
    else (if AtMost(start, items[0].key) then [items[0]] else []) + From(items[1..], start)
  }

  lemma {:induction false} FromConcat(a: seq<Item>, b: seq<Item>, start: Key)
    ensures From(a + b, start) == From(a, start) + From(b, start)
  {
    hide AtMost;
    if a == [] {
      assert a + b == b;
    } else {
      assert (a + b)[1..] == a[1..] + b;
      FromConcat(a[1..], b, start);
      var first := if AtMost(start, a[0].key) then [a[0]] else [];
      assert From(a + b, start) == first + From(a[1..] + b, start);
      assert first + (From(a[1..], start) + From(b, start)) == (first + From(a[1..], start)) + From(b, start);
    }
  }

  lemma {:induction false} FromAll(items: seq<Item>, start: Key)
    requires forall it :: it in items ==> AtMost(start, it.key)
    ensures From(items, start) == items
  {
    if items != [] {
      assert items[0] in items;
      FromAll(items[1..], start);
    }
  }

  lemma {:induction false} FromNone(items: seq<Item>, start: Key)
    requires forall it :: it in items ==> Less(it.key, start)
    ensures From(items, start) == []
  {
    if items != [] {
      assert items[0] in items;
      LessAsymmetric(items[0].key, start);
      FromNone(items[1..], start);
    }
  }

  lemma AtMostCancel(p: Key, a: Key, b: Key)
    ensures AtMost(p + a, p + b) <==> AtMost(a, b)
  {
    LessCancel(p, a, b);
    if p + a == p + b {
      assert a == (p + a)[|p|..] == (p + b)[|p|..] == b;
    }
  }

  lemma PrependConcat(p: Key, a: seq<Item>, b: seq<Item>)
    ensures Prepend(p, a + b) == Prepend(p, a) + Prepend(p, b)
  {
  }

  lemma {:induction false} FromPrepend(p: Key, items: seq<Item>, start: Key)
    ensures From(Prepend(p, items), p + start) == Prepend(p, From(items, start))
  {
    if items != [] {
      hide AtMost;
      AtMostCancel(p, start, items[0].key);
      assert Prepend(p, items)[1..] == Prepend(p, items[1..]);
      FromPrepend(p, items[1..], start);
      var head := if AtMost(start, items[0].key) then [items[0]] else [];
      PrependConcat(p, head, From(items[1..], start));
    }
  }

  lemma {:induction false} ListEntriesAll(n: Node)
    ensures ListEntries(n, []) == Items(n)
    decreases |n|
  {
    if n != [] {
      ListEntriesAll(n[1..]);
    }
  }

  lemma {:induction false} LessOfPrefixes(a: Key, b: Key, m: nat)
    requires m <= |a| && m <= |b| && Less(a[..m], b[..m])
    ensures Less(a, b)
  {
    if a[0] == b[0] {
      assert a[..m][1..] == a[1..][..m - 1] && b[..m][1..] == b[1..][..m - 1];
      LessOfPrefixes(a[1..], b[1..], m - 1);
    }
  }

  lemma BelowIsLess(e: Entry, start: Key, it: Item)
    requires EntirelyBelow(e, start) && it in EntryItems(e)
    ensures Less(it.key, start)
  {
    EntryItemPrefixed(e, it);
    var m := if |e.prefix| < |start| then |e.prefix| else |start|;
    assert it.key[..m] == it.key[..|e.prefix|][..m] == e.prefix[..m];
    LessOfPrefixes(it.key, start, m);
  }

  lemma PassedIsAtLeast(e: Entry, start: Key, it: Item)
    requires start != [] && !EntirelyBelow(e, start) && !ContinuesBelow(e, start) && it in EntryItems(e)
    ensures AtMost(start, it.key)
  {
    EntryItemPrefixed(e, it);
    var m := if |e.prefix| < |start| then |e.prefix| else |start|;
    assert it.key[..m] == it.key[..|e.prefix|][..m] == e.prefix[..m];
    LessTotal(e.prefix[..m], start[..m]);
    if e.prefix[..m] == start[..m] {
      assert e.prefix[..|e.prefix|] == e.prefix;
      assert m == |start|;
      assert it.key[..m] == start[..m] == start;
      assert it.key == it.key[..m] + it.key[m..];
      if it.key[m..] != [] {
        LessByExtension(start, it.key[m..]);
      }
    } else {
      LessOfPrefixes(start, it.key, m);
    }
  }

  lemma ListEntryIsFrom(e: Entry, start: Key)
    requires EntryWellFormed(e) && start != []
    requires ContinuesBelow(e, start) ==> ListNode(e.child, start[|e.prefix|..]) == From(Items(e.child), start[|e.prefix|..])
    ensures ListEntry(e, start) == From(EntryItems(e), start)
  {
    if EntirelyBelow(e, start) {
      forall it | it in EntryItems(e)
        ensures Less(it.key, start)
      {
        BelowIsLess(e, start, it);
      }
      FromNone(EntryItems(e), start);
    } else if ContinuesBelow(e, start) {
      var rest := start[|e.prefix|..];
      assert start == e.prefix + rest;
      LessByExtension(e.prefix, rest);
      FromConcat(OwnItems(e), Prepend(e.prefix, Items(e.child)), start);
      FromNone(OwnItems(e), start);
      FromPrepend(e.prefix, Items(e.child), rest);
    } else {
      forall it | it in EntryItems(e)
        ensures AtMost(start, it.key)
      {
        PassedIsAtLeast(e, start, it);
      }
      FromAll(EntryItems(e), start);
    }
  }

  lemma PassedFirst(e: Entry, start: Key)
    requires EntryWellFormed(e) && start != [] && !EntirelyBelow(e, start)
    ensures First(e) >= start[0] as int
  {
  }

  lemma LaterFirst(n: Node, start: Key)
    requires WellFormed(n) && start != [] && forall i :: 0 <= i < |n| ==> First(n[i]) > start[0] as int
    ensures From(Items(n), start) == Items(n)
  {
    forall it | it in Items(n)
      ensures AtMost(start, it.key)
    {
      InItems(n, it);
      var i :| 0 <= i < |n| && it in EntryItems(n[i]);
      assert EntryWellFormed(n[i]);
      EntryItemPrefixed(n[i], it);
      assert it.key[..|n[i].prefix|][0] == it.key[0];
    }
    FromAll(Items(n), start);
  }

  lemma {:induction false} ListEntriesIsFrom(n: Node, start: Key)
    requires WellFormed(n) && start != []
    ensures ListEntries(n, start) == From(Items(n), start)
    decreases n, 0
  {
    if n != [] {
      assert EntryWellFormed(n[0]);
      if ContinuesBelow(n[0], start) {
        ScanIsExact(n[0].child, start[|n[0].prefix|..]);
      }
      ListEntryIsFrom(n[0], start);
      var rest := n[1..];
      assert WellFormed(rest);
      FromConcat(EntryItems(n[0]), Items(rest), start);
      if EntirelyBelow(n[0], start) {
        ListEntriesIsFrom(rest, start);
      } else {
        PassedFirst(n[0], start);
        LaterFirst(rest, start);
        ListEntriesAll(rest);
      }
    }
  }

  lemma {:induction false} ItemsConcat(a: Node, b: Node)
    ensures Items(a + b) == Items(a) + Items(b)
    decreases |a|
  {
    if a == [] {
      assert a + b == b;
    } else {
      assert (a + b)[1..] == a[1..] + b;
      ItemsConcat(a[1..], b);
    }
  }

  lemma EarlierFirst(n: Node, start: Key)
    requires WellFormed(n) && start != [] && forall i :: 0 <= i < |n| ==> First(n[i]) < start[0] as int
    ensures From(Items(n), start) == []
  {
    forall it | it in Items(n)
      ensures Less(it.key, start)
    {
      InItems(n, it);
      var i :| 0 <= i < |n| && it in EntryItems(n[i]);
      assert EntryWellFormed(n[i]);
      EntryItemPrefixed(n[i], it);
      assert it.key[..|n[i].prefix|][0] == it.key[0];
    }
    FromNone(Items(n), start);
  }

  lemma SliceWellFormed(n: Node, pos: nat)
    requires WellFormed(n) && pos <= |n|
    ensures WellFormed(n[..pos]) && WellFormed(n[pos..])
  {
  }

  lemma EarlierSlice(n: Node, start: Key)
    requires WellFormed(n) && start != []
    ensures From(Items(n[..FindPos(n, start[0])]), start) == []
  {
    hide Items, From, EntryWellFormed;
    var pos := FindPos(n, start[0]);
    SliceWellFormed(n, pos);
    EarlierFirst(n[..pos], start);
  }

  lemma SkipEarlier(n: Node, start: Key)
    requires WellFormed(n) && start != []
    ensures From(Items(n), start) == From(Items(n[FindPos(n, start[0])..]), start)
  {
    hide *;
    var pos := FindPos(n, start[0]);
    var before, after := n[..pos], n[pos..];
    EarlierSlice(n, start);
    assert n == before + after;
    ItemsConcat(before, after);
    FromConcat(Items(before), Items(after), start);
    assert [] + From(Items(after), start) == From(Items(after), start);
  }

  /** From any start key, the walk visits exactly the keys at or after it. */
  lemma {:induction false} ScanIsExact(n: Node, start: Key)
    requires WellFormed(n)
    ensures ListNode(n, start) == From(Items(n), start)
    decreases n, 1
  {
    if start == [] {
      ListEntriesAll(n);
      FromAll(Items(n), start);
    } else {
      hide Items, From, ListEntries, WellFormed;
      var pos := FindPos(n, start[0]);
      SkipEarlier(n, start);
      SliceWellFormed(n, pos);
      assert pos == 0 ==> n[pos..] == n;
      ListEntriesIsFrom(n[pos..], start);
    }
  }

  // ---------------------------------------------------------------------
  // Visiting until told to stop

  /** The items visited when `go`, given all visited so far, says whether to go on. */
  function Visit(items: seq<Item>, seen: seq<Item>, go: seq<Item> -> bool): (seq<Item>, bool)
    decreases |items|
  {
    if items == [] then (seen, true)
    else
      var now := seen + [items[0]];
      if go(now) then Visit(items[1..], now, go) else (now, false)
  }

  /** A visit stops at the first item for which the callback says so, and not before. */
  lemma {:induction false} VisitIsPrefix(items: seq<Item>, seen: seq<Item>, go: seq<Item> -> bool)
    ensures var (all, more) := Visit(items, seen, go);
            exists m :: 0 <= m <= |items| && all == seen + items[..m]
              && (forall i :: 0 < i < m ==> go(seen + items[..i]))
              && (more ==> m == |items| && (m > 0 ==> go(all)))
              && (!more ==> m > 0 && !go(all))
    decreases |items|
  {
    var (all, more) := Visit(items, seen, go);
    if items == [] {
      assert all == seen + items[..0];
    } else {
      var now := seen + [items[0]];
      assert items[..1] == [items[0]];
      if go(now) {
        VisitIsPrefix(items[1..], now, go);
        var m :| 0 <= m <= |items| - 1 && all == now + items[1..][..m]
          && (forall i :: 0 < i < m ==> go(now + items[1..][..i]))
          && (more ==> m == |items| - 1 && (m > 0 ==> go(all)))
          && (!more ==> m > 0 && !go(all));
        assert seen + items[..m + 1] == now + items[1..][..m];
        forall i | 0 < i < m + 1
          ensures go(seen + items[..i])
        {
          assert seen + items[..i] == now + items[1..][..i - 1];
        }
        assert more && m == 0 ==> all == now;
      } else {
        assert all == seen + items[..1];
      }
    }
  }

  lemma {:induction false} VisitConcat(a: seq<Item>, b: seq<Item>, seen: seq<Item>, go: seq<Item> -> bool)
    ensures var (all, more) := Visit(a, seen, go);
            Visit(a + b, seen, go) == if more then Visit(b, all, go) else (all, false)
    decreases |a|
  {
    if a == [] {
      assert a + b == b;
    } else {
      assert (a + b)[1..] == a[1..] + b;
      VisitConcat(a[1..], b, seen + [a[0]], go);
    }
  }

  // ---------------------------------------------------------------------
  // Facts for walking a node entry by entry

  /** Every key's revisions are in ascending order. */
  ghost predicate AscendingNode(n: Node)
    decreases n
  {
    forall i :: 0 <= i < |n| ==> Ascending(n[i].revs) && AscendingNode(n[i].child)
  }

  lemma {:induction false} CompactNodeSnoc(n: Node, e: Entry, through: Revision)
    ensures CompactNode(n + [e], through) == CompactNode(n, through) + [CompactEntry(e, through)]
    ensures CompactReport(n + [e], through) == Plus(CompactReport(n, through), EntryReport(e, through))
    decreases |n|
  {
    hide CompactEntry, EntryReport;
    if n == [] {
      assert n + [e] == [e] && [e][1..] == [];
    } else {
      assert (n + [e])[1..] == n[1..] + [e];
      CompactNodeSnoc(n[1..], e, through);
    }
  }

  lemma ListEntryParts(e: Entry, start: Key)
    ensures var below := if start != [] && ContinuesBelow(e, start) then start[|e.prefix|..] else [];
            ListEntry(e, start) ==
              if start != [] && EntirelyBelow(e, start) then []
              else (if below == [] then OwnItems(e) else []) + Prepend(e.prefix, ListNode(e.child, below))
  {
    ListEntriesAll(e.child);
  }

  lemma VisitPrepend(path: Key, a: seq<Item>, b: seq<Item>, seen: seq<Item>, go: seq<Item> -> bool)
    ensures var (all, more) := Visit(Prepend(path, a), seen, go);
            Visit(Prepend(path, a + b), seen, go) == if more then Visit(Prepend(path, b), all, go) else (all, false)
  {
    PrependConcat(path, a, b);
    VisitConcat(Prepend(path, a), Prepend(path, b), seen, go);
  }

  lemma PrependTwice(p: Key, q: Key, items: seq<Item>)
    ensures Prepend(p, Prepend(q, items)) == Prepend(p + q, items)
  {
    forall i | 0 <= i < |items|
      ensures p + (q + items[i].key) == (p + q) + items[i].key
    {
    }
  }
}
