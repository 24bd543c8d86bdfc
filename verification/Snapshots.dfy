/** Runs of operations over many tries that share nodes: each trie keeps exactly what its own
    operations put there, and reports the hash of exactly that. */
module Snapshots {
  import opened Keys
  import opened Tries
  import opened Canonical
  import opened Proofs
  import opened CopyOnWrite

  // ---------------------------------------------------------------- what a run means

  /** What one trie is to an observer. */
  datatype View = View(contents: map<Key, Elem>, authenticated: bool)

  /** An operation names tries by their position in the pool. */
  datatype Operation =
    | Create
    | CopyOf(from: nat)
    | AssignTo(to: nat, from: nat)
    | InsertInto(at: nat, elem: Elem)
    | RemoveFromTrie(at: nat, key: Key)
    | SetAuthenticated(at: nat, on: bool)
    | Discard(at: nat)
  {
    predicate InRange(n: nat) {
      match this
      case Create => true
      case CopyOf(i) => i < n
      case AssignTo(i, j) => i < n && j < n
      case InsertInto(i, _) => i < n
      case RemoveFromTrie(i, _) => i < n
      case SetAuthenticated(i, _) => i < n
      case Discard(i) => i < n
    }
  }

  function Without<T>(s: seq<T>, i: nat): (r: seq<T>)
    requires i < |s|
    ensures |r| == |s| - 1 && forall j {:trigger r[j]} | 0 <= j < |r| :: r[j] == s[if j < i then j else j + 1]
  {
    s[..i] + s[i + 1..]
  }

  /** Tries as independent maps: no sharing, no nodes. */
  function Step(views: seq<View>, op: Operation): seq<View>
    requires op.InRange(|views|)
  {
    match op
    case Create => views + [View(map[], false)]
    case CopyOf(i) => views + [views[i]]
    case AssignTo(i, j) => views[i := views[j]]
    case InsertInto(i, e) =>
      var m := views[i].contents;
      views[i := views[i].(contents := if e.key in m then m else m[e.key := e])]
    case RemoveFromTrie(i, k) => views[i := views[i].(contents := views[i].contents - {k})]
    case SetAuthenticated(i, on) => views[i := views[i].(authenticated := on)]
    case Discard(i) => Without(views, i)
  }

  /** The meaning of a whole run. An operation on a trie that is not there is skipped. */
  function Meaning(ops: seq<Operation>): seq<View> {
    if ops == [] then []
    else
      var views := Meaning(ops[..|ops| - 1]);
      var op := ops[|ops| - 1];
      if op.InRange(|views|) then Step(views, op) else views
  }

  // ---------------------------------------------------------------- the heap agrees with it

  ghost predicate Backs(t: MerkleTrie, v: View)
    reads t, t.genitor, Heap.Only(t.genitor.left)
  {
    t.Value().Valid() && t.Value().Contents() == v.contents && t.authenticated == v.authenticated
  }

  ghost predicate Matches(heap: Heap, pool: seq<MerkleTrie>, views: seq<View>)
    reads heap, heap.tries, heap.nodes
  {
    && heap.Valid() && |pool| == |views|
    && (forall i {:trigger pool[i]} | 0 <= i < |pool| :: pool[i] in heap.tries)
    && (forall i, j {:trigger pool[i], pool[j]} | 0 <= i < j < |pool| :: pool[i] != pool[j])
    && (forall t {:trigger t in heap.tries} | t in heap.tries :: t in pool)
    && (forall t {:trigger t.genitor} | t in heap.tries :: t.genitor in heap.nodes && (t.genitor.left != null ==> t.genitor.left in heap.nodes))
    && (forall i {:trigger Backs(pool[i], views[i])} | 0 <= i < |pool| :: Backs(pool[i], views[i]))
  }

  lemma GenitorsLive(heap: Heap)
    requires heap.Valid()
    ensures forall t {:trigger t.genitor} | t in heap.tries :: t.heap == heap && t.genitor in heap.nodes && (t.genitor.left != null ==> t.genitor.left in heap.nodes)
  {
    heap.HandlesLive();
    forall t | t in heap.tries
      ensures t.heap == heap && (t.genitor.left != null ==> t.genitor.left in heap.nodes)
    {
      assert heap.TrieOk(t) && heap.Claimed(t.genitor, true, {});
    }
  }

  /** An operation on one trie leaves the agreement of all the others as it was. */
  twostate lemma OthersStillMatch(pool: seq<MerkleTrie>, new views: seq<View>, new i: nat, new v: View)
    requires i < |pool| && old(Matches(pool[i].heap, pool, views))
    requires pool[i].heap.Valid() && pool[i].OthersKept() && Backs(pool[i], v)
    requires forall t {:trigger t.authenticated} | t in pool[i].heap.tries && t != pool[i] :: t.authenticated == old(t.authenticated)
    ensures Matches(pool[i].heap, pool, views[i := v])
  {
    GenitorsLive(pool[i].heap);
    forall j | 0 <= j < |pool|
      ensures Backs(pool[j], views[i := v][j])
    {
      if j != i {
        assert old(Backs(pool[j], views[j]));
      }
    }
  }

  method DoInsert(heap: Heap, pool: seq<MerkleTrie>, ghost views: seq<View>, i: nat, e: Elem) returns (done: bool)
    requires Matches(heap, pool, views) && i < |pool|
    modifies heap, heap.tries, heap.nodes
    ensures Matches(heap, pool, Step(views, InsertInto(i, e))) && done == (e.key !in views[i].contents)
    ensures fresh(heap.nodes - old(heap.nodes)) && heap.tries == old(heap.tries)
  {
    GenitorsLive(heap);
    assert Backs(pool[i], views[i]);
    InsertIsMapInsert(pool[i].Value(), e);
    done := pool[i].Insert(e);
    OthersStillMatch(pool, views, i, Step(views, InsertInto(i, e))[i]);
  }

  method DoRemove(heap: Heap, pool: seq<MerkleTrie>, ghost views: seq<View>, i: nat, k: Key) returns (done: bool)
    requires Matches(heap, pool, views) && i < |pool|
    modifies heap, heap.tries, heap.nodes
    ensures Matches(heap, pool, Step(views, RemoveFromTrie(i, k))) && done == (k in views[i].contents)
    ensures fresh(heap.nodes - old(heap.nodes)) && heap.tries == old(heap.tries)
  {
    GenitorsLive(heap);
    assert Backs(pool[i], views[i]);
    RemoveIsMapRemove(pool[i].Value(), k);
    done := pool[i].Remove(k);
    OthersStillMatch(pool, views, i, Step(views, RemoveFromTrie(i, k))[i]);
  }

  method DoAuthenticate(heap: Heap, pool: seq<MerkleTrie>, ghost views: seq<View>, i: nat, on: bool)
    requires Matches(heap, pool, views) && i < |pool|
    modifies heap, heap.tries, heap.nodes
    ensures Matches(heap, pool, Step(views, SetAuthenticated(i, on)))
    ensures fresh(heap.nodes - old(heap.nodes)) && heap.tries == old(heap.tries)
  {
    GenitorsLive(heap);
    assert Backs(pool[i], views[i]);
    pool[i].Authenticate(on);
    OthersStillMatch(pool, views, i, Step(views, SetAuthenticated(i, on))[i]);
  }

  method DoAssign(heap: Heap, pool: seq<MerkleTrie>, ghost views: seq<View>, i: nat, j: nat)
    requires Matches(heap, pool, views) && i < |pool| && j < |pool|
    modifies heap, heap.tries, heap.nodes
    ensures Matches(heap, pool, Step(views, AssignTo(i, j)))
    ensures fresh(heap.nodes - old(heap.nodes)) && heap.tries == old(heap.tries)
  {
    GenitorsLive(heap);
    assert Backs(pool[j], views[j]);
    pool[i].Assign(pool[j]);
    OthersStillMatch(pool, views, i, views[j]);
  }

  method DoCreate(heap: Heap, pool: seq<MerkleTrie>, ghost views: seq<View>) returns (pool': seq<MerkleTrie>)
    requires Matches(heap, pool, views)
    modifies heap, heap.tries, heap.nodes
    ensures Matches(heap, pool', Step(views, Create))
    ensures fresh(heap.nodes - old(heap.nodes)) && fresh(heap.tries - old(heap.tries))
  {
    GenitorsLive(heap);
    assert forall j {:trigger Backs(pool[j], views[j])} | 0 <= j < |pool| :: Backs(pool[j], views[j]);
    var t := new MerkleTrie(heap);
    pool' := pool + [t];
    GenitorsLive(heap);
    forall j | 0 <= j < |pool'|
      ensures Backs(pool'[j], Step(views, Create)[j])
    {
      assert j < |pool| ==> old(Backs(pool[j], views[j]));
    }
  }

  method DoCopy(heap: Heap, pool: seq<MerkleTrie>, ghost views: seq<View>, i: nat) returns (pool': seq<MerkleTrie>)
    requires Matches(heap, pool, views) && i < |pool|
    modifies heap, heap.tries, heap.nodes
    ensures Matches(heap, pool', Step(views, CopyOf(i)))
    ensures fresh(heap.nodes - old(heap.nodes)) && fresh(heap.tries - old(heap.tries))
  {
    GenitorsLive(heap);
    assert Backs(pool[i], views[i]);
    assert heap.TrieOk(pool[i]);
    var t := new MerkleTrie.Copy(pool[i]);
    pool' := pool + [t];
    GenitorsLive(heap);
    forall j | 0 <= j < |pool'|
      ensures Backs(pool'[j], Step(views, CopyOf(i))[j])
    {
      assert j < |pool| ==> old(Backs(pool[j], views[j]));
    }
  }

  method DoDiscard(heap: Heap, pool: seq<MerkleTrie>, ghost views: seq<View>, i: nat) returns (pool': seq<MerkleTrie>)
    requires Matches(heap, pool, views) && i < |pool|
    modifies heap, heap.tries, heap.nodes
    ensures Matches(heap, pool', Step(views, Discard(i)))
    ensures fresh(heap.nodes - old(heap.nodes)) && fresh(heap.tries - old(heap.tries))
  {
    GenitorsLive(heap);
    pool[i].Destroy();
    pool' := Without(pool, i);
    DiscardedMatches(pool, views, i);
  }

  twostate lemma DiscardedMatches(pool: seq<MerkleTrie>, new views: seq<View>, new i: nat)
    requires i < |pool| && old(Matches(pool[i].heap, pool, views))
    requires pool[i].heap.Valid() && pool[i].heap.tries == old(pool[i].heap.tries) - {pool[i]} && pool[i].heap.nodes <= old(pool[i].heap.nodes)
    requires forall t {:trigger t.genitor} | t in pool[i].heap.tries :: t.genitor == old(t.genitor) && t.authenticated == old(t.authenticated)
    requires forall n {:trigger n.left} {:trigger n.model} | n in pool[i].heap.nodes :: n.left == old(n.left) && n.model == old(n.model)
    ensures Matches(pool[i].heap, Without(pool, i), Without(views, i))
  {
    ghost var heap := pool[i].heap;
    GenitorsLive(heap);
    assert forall t {:trigger t in heap.tries} | t in heap.tries :: t in old(heap.tries) && t != pool[i];
    forall j | 0 <= j < |pool| - 1
      ensures Backs(Without(pool, i)[j], Without(views, i)[j])
    {
      var was := if j < i then j else j + 1;
      assert old(Backs(pool[was], views[was]));
    }
    AllStillListed(pool, i, heap.tries);
  }

  lemma AllStillListed(pool: seq<MerkleTrie>, i: nat, tries: set<MerkleTrie>)
    requires i < |pool| && forall t {:trigger t in tries} | t in tries :: t in pool && t != pool[i]
    ensures forall t {:trigger t in tries} | t in tries :: t in Without(pool, i)
  {
  }

  // ------------------------------------------------------------------ whole runs

  method Perform(heap: Heap, pool: seq<MerkleTrie>, ghost views: seq<View>, op: Operation) returns (pool': seq<MerkleTrie>)
    requires Matches(heap, pool, views) && op.InRange(|pool|)
    modifies heap, heap.tries, heap.nodes
    ensures Matches(heap, pool', Step(views, op))
    ensures fresh(heap.nodes - old(heap.nodes)) && fresh(heap.tries - old(heap.tries))
  {
    pool' := pool;
    match op {
      case Create => pool' := DoCreate(heap, pool, views);
      case CopyOf(i) => pool' := DoCopy(heap, pool, views, i);
      case AssignTo(i, j) => DoAssign(heap, pool, views, i, j);
      case InsertInto(i, e) => var _ := DoInsert(heap, pool, views, i, e);
      case RemoveFromTrie(i, k) => var _ := DoRemove(heap, pool, views, i, k);
      case SetAuthenticated(i, on) => DoAuthenticate(heap, pool, views, i, on);
      case Discard(i) => pool' := DoDiscard(heap, pool, views, i);
    }
  }

  /** The stored root hash of an authenticated trie depends on nothing but its contents. */
  lemma RootHashOfContents(heap: Heap, t: MerkleTrie, r: Root)
    requires heap.Valid() && t in heap.tries && t.authenticated
    requires t.genitor in heap.nodes && t.heap == heap && (t.genitor.left != null ==> t.genitor.left in heap.nodes)
    requires t.Value().Valid() && r.Valid() && r.Full? && r.Contents() == t.Value().Contents()
    ensures t.root != null && t.root.HashOf(heap.h) == RootHash(heap.h, r)
  {
    assert heap.TrieOk(t);
    heap.HandlesLive();
    assert heap.WellMade(t.genitor);
    SameContentsSameRootHash(heap.h, t.Value(), r);
    t.StoredHashIsFullHash(t.root);
  }

  function Size(t: Trie): nat {
    if t.Leaf? then 1 else 1 + Size(t.left) + Size(t.right)
  }

  lemma {:induction false} SomeBound(s: set<Node>) returns (bound: nat)
    ensures forall n {:trigger n.model} | n in s :: Size(n.model) <= bound
  {
    if s == {} {
      bound := 0;
    } else {
      var n :| n in s;
      bound := SomeBound(s - {n});
      bound := bound + Size(n.model);
    }
  }

  /** Counting up from any live node leads to a trie, for there are no cycles of nodes. */
  lemma {:induction false} LeadsToATrie(heap: Heap, n: Node, bound: nat)
    requires heap.Valid() && n in heap.nodes
    requires forall m {:trigger m.model} | m in heap.nodes :: Size(m.model) <= bound
    ensures heap.tries != {}
    decreases if n.kind.EndNode? then bound + 2 else if n.Inner() then 1 + bound - Size(n.model) else 0
  {
    assert heap.Tallied(n, {}, null);
    var s :| s in n.holders;
    assert heap.Holds(s, n);
    if s.Field? {
      assert heap.WellMade(s.node);
      LeadsToATrie(heap, s.node, bound);
    }
  }

  /** When no trie is left, every node has been freed. */
  lemma NothingLeaks(heap: Heap)
    requires heap.Valid() && heap.tries == {}
    ensures heap.nodes == {}
  {
    if heap.nodes != {} {
      var n :| n in heap.nodes;
      var bound := SomeBound(heap.nodes);
      LeadsToATrie(heap, n, bound);
    }
  }

  /** Each authenticated trie reports the hash of any trie with its contents. */
  ghost predicate Reports(heap: Heap, pool: seq<MerkleTrie>, views: seq<View>)
    requires |pool| == |views|
    reads pool, set t | t in pool && t.root != null :: t.root
  {
    forall i, r: Root {:trigger pool[i], RootHash(heap.h, r)} | 0 <= i < |pool| && pool[i].authenticated
        && r.Valid() && r.Full? && r.Contents() == views[i].contents ::
      pool[i].root != null && pool[i].root.HashOf(heap.h) == RootHash(heap.h, r)
  }

  lemma AllReport(heap: Heap, pool: seq<MerkleTrie>, views: seq<View>)
    requires Matches(heap, pool, views)
    ensures Reports(heap, pool, views)
  {
    GenitorsLive(heap);
    forall i, r: Root | 0 <= i < |pool| && pool[i].authenticated && r.Valid() && r.Full? && r.Contents() == views[i].contents
      ensures pool[i].root != null && pool[i].root.HashOf(heap.h) == RootHash(heap.h, r)
    {
      assert Backs(pool[i], views[i]);
      RootHashOfContents(heap, pool[i], r);
    }
  }

  /** Snapshot isolation over whole runs: after any sequence of operations on any number of tries that
      share nodes, every trie holds exactly what a map of its own would hold, and the root hash of an
      authenticated one is the hash of any valid trie with those contents, however that was built. */
  method Run(h: Hasher, ops: seq<Operation>) returns (heap: Heap, pool: seq<MerkleTrie>)
    ensures heap.h == h && Matches(heap, pool, Meaning(ops))
    ensures Reports(heap, pool, Meaning(ops))
    ensures pool == [] ==> heap.nodes == {}
  {
    heap := new Heap(h);
    pool := [];
    var n := 0;
    while n < |ops|
      invariant 0 <= n <= |ops|
      invariant fresh(heap) && fresh(heap.nodes) && fresh(heap.tries) && heap.h == h
      invariant Matches(heap, pool, Meaning(ops[..n]))
    {
      ghost var views := Meaning(ops[..n]);
      assert ops[..n + 1][..n] == ops[..n] && ops[..n + 1][n] == ops[n];
      if ops[n].InRange(|pool|) {
        pool := Perform(heap, pool, views, ops[n]);
      }
      n := n + 1;
    }
    assert ops[..n] == ops;
    AllReport(heap, pool, Meaning(ops));
    if pool == [] {
      NothingLeaks(heap);
    }
  }
}
