/** The autocache LRU cache as the Go code builds it: a map from key to node
    plus a doubly linked recency list from `head` (most recently used) to
    `tail` (least recently used), with `count` nodes and at most `maxSize`. */
module AutoCache {
  import opened Lru

  /** One cached entry; `next` points towards the tail, `prev` towards the head. */
  class Node {
    const key: string
    const val: string
    var next: Node?
    var prev: Node?

    constructor (key: string, val: string)
      ensures this.key == key && this.val == val
      ensures next == null && prev == null
    {
      this.key := key;
      this.val := val;
      next := null;
      prev := null;
    }
  }

  /** The keys of the nodes `ns`, in list order. */
  ghost function KeysOf(ns: seq<Node>): (ks: seq<string>)
    ensures |ks| == |ns| && forall i {:trigger ks[i]} | 0 <= i < |ns| :: ks[i] == ns[i].key
  {
    seq(|ns|, i requires 0 <= i < |ns| => ns[i].key)
  }

  /** The nodes of `ns` as a set. */
  ghost function Elems(ns: seq<Node>): set<Node> {
    set n | n in ns
  }

  /** `ns` is a doubly linked list from `h` to `t`: `h` and `t` are the ends
      (nil when empty), `next` leads to the following node and `prev` to the
      preceding one, nil at the ends. */
  ghost predicate Linked(ns: seq<Node>, h: Node?, t: Node?)
    reads Elems(ns)
  {
    && h == (if ns == [] then null else ns[0])
    && t == (if ns == [] then null else ns[|ns| - 1])
    && (forall i {:trigger ns[i].next} | 0 <= i < |ns| :: ns[i].next == (if i + 1 < |ns| then ns[i + 1] else null))
    && (forall i {:trigger ns[i].prev} | 0 <= i < |ns| :: ns[i].prev == (if i == 0 then null else ns[i - 1]))
  }

  /** Following `next` from `ns[i]` and from `ns[j]` reaches nil after different
      numbers of steps, so a linked list holds no node twice. */
  lemma {:induction false} LinkedNoRepeat(ns: seq<Node>, h: Node?, t: Node?, i: nat, j: nat)
    requires Linked(ns, h, t) && i < j < |ns|
    ensures ns[i] != ns[j]
    decreases |ns| - j
  {
    if j + 1 < |ns| {
      LinkedNoRepeat(ns, h, t, i + 1, j + 1);
      assert ns[i].next == ns[i + 1] && ns[j].next == ns[j + 1];
    } else {
      assert ns[i].next == ns[i + 1] && ns[j].next == null;
    }
  }

  lemma LinkedDistinct(ns: seq<Node>, h: Node?, t: Node?)
    requires Linked(ns, h, t)
    ensures forall i, j | 0 <= i < j < |ns| :: ns[i] != ns[j]
  {
    forall i, j | 0 <= i < j < |ns|
      ensures ns[i] != ns[j]
    {
      LinkedNoRepeat(ns, h, t, i, j);
    }
  }

  /** The value of each key's node. */
  ghost function ValsOf(hash: map<string, Node>): (vals: map<string, string>)
    ensures vals.Keys == hash.Keys && forall k | k in hash :: vals[k] == hash[k].val
  {
    map k | k in hash :: hash[k].val
  }

  /** `hash` indexes the list `ns`: each key once in the list, the map has
      exactly the list's keys, and leads from each key to its node. */
  ghost predicate Indexed(ns: seq<Node>, hash: map<string, Node>) {
    && Distinct(KeysOf(ns))
    && (forall k :: k in hash <==> k in KeysOf(ns))
    && (forall n {:trigger n in ns} | n in ns :: n.key in hash && hash[n.key] == n)
  }

  lemma KeysOfAppend(a: seq<Node>, b: seq<Node>)
    ensures KeysOf(a + b) == KeysOf(a) + KeysOf(b)
  {
    assert forall i | 0 <= i < |a + b| :: KeysOf(a + b)[i] == (KeysOf(a) + KeysOf(b))[i];
  }

  lemma KeysOfSlice(ns: seq<Node>, lo: nat, hi: nat)
    requires lo <= hi <= |ns|
    ensures KeysOf(ns[lo..hi]) == KeysOf(ns)[lo..hi]
  {
    assert forall i | 0 <= i < hi - lo :: KeysOf(ns[lo..hi])[i] == KeysOf(ns)[lo..hi][i];
  }

  /** The list `ns` with node `n` at its front: `n` is either the node at
      position `p`, moved there, or (for negative `p`) a node not in `ns`. */
  ghost function Moved(n: Node, ns: seq<Node>, p: int): seq<Node>
    requires p < |ns|
  {
    [n] + (if p < 0 then ns else ns[..p] + ns[p + 1..])
  }

  /** A rearrangement of an indexed list, with the same nodes and keys
      still distinct, is indexed by the same map. */
  lemma IndexedRearranged(ns: seq<Node>, r: seq<Node>, hash: map<string, Node>)
    requires Indexed(ns, hash) && Elems(r) == Elems(ns)
    requires Distinct(KeysOf(r)) && forall y :: y in KeysOf(r) <==> y in KeysOf(ns)
    ensures Indexed(r, hash)
  {
    forall n | n in r
      ensures n.key in hash && hash[n.key] == n
    {
      assert n in Elems(r);
    }
  }

  /** The keys of the promoted list are the keys promoted. */
  lemma PromoteKeys(ns: seq<Node>, p: nat)
    requires p < |ns|
    ensures KeysOf(Moved(ns[p], ns, p)) == [KeysOf(ns)[p]] + (KeysOf(ns)[..p] + KeysOf(ns)[p + 1..])
  {
    KeysOfAppend([ns[p]], ns[..p] + ns[p + 1..]);
    KeysOfAppend(ns[..p], ns[p + 1..]);
    KeysOfSlice(ns, 0, p);
    KeysOfSlice(ns, p + 1, |ns|);
  }

  lemma PromoteElems(ns: seq<Node>, p: nat)
    requires p < |ns|
    ensures Elems(Moved(ns[p], ns, p)) == Elems(ns)
  {
    assert ns == ns[..p] + [ns[p]] + ns[p + 1..];
  }

  /** Moving a node to the front keeps the index, and the keys move as
      `Lru.Get` moves them on a hit. */
  lemma PromoteIndexed(ns: seq<Node>, hash: map<string, Node>, p: nat)
    requires Indexed(ns, hash) && p < |ns|
    ensures Indexed(Moved(ns[p], ns, p), hash)
    ensures Elems(Moved(ns[p], ns, p)) == Elems(ns)
    ensures KeysOf(Moved(ns[p], ns, p)) == [ns[p].key] + Without(KeysOf(ns), ns[p].key)
  {
    PromoteKeys(ns, p);
    PromoteElems(ns, p);
    MoveToFront(KeysOf(ns), p);
    IndexedRearranged(ns, Moved(ns[p], ns, p), hash);
  }

  lemma KeysOfCons(n: Node, ns: seq<Node>)
    ensures KeysOf([n] + ns) == [n.key] + KeysOf(ns)
  {
    KeysOfAppend([n], ns);
    assert KeysOf([n]) == [n.key];
  }

  lemma ElemsCons(n: Node, ns: seq<Node>)
    ensures Elems([n] + ns) == Elems(ns) + {n}
  {
    assert forall m | m in [n] + ns :: m == n || m in ns;
  }

  lemma ValsOfInsert(hash: map<string, Node>, n: Node)
    ensures ValsOf(hash[n.key := n]) == ValsOf(hash)[n.key := n.val]
  {
  }

  /** Putting a node with a new key in front of the list and into `hash` keeps the index. */
  lemma InsertIndexed(ns: seq<Node>, hash: map<string, Node>, n: Node)
    requires Indexed(ns, hash) && n.key !in hash
    ensures Indexed([n] + ns, hash[n.key := n])
    ensures |hash[n.key := n]| == |hash| + 1
  {
    var h := hash[n.key := n];
    KeysOfCons(n, ns);
    DistinctCons(n.key, KeysOf(ns));
    assert forall k :: k in h <==> k in [n.key] + KeysOf(ns);
    forall m | m in [n] + ns
      ensures m.key in h && h[m.key] == m
    {
      if m != n {
        assert m in ns;
      }
    }
  }

  /** In an indexed list the last node and its key occur nowhere before it. */
  lemma LastOnce(ns: seq<Node>, hash: map<string, Node>)
    requires Indexed(ns, hash) && |ns| >= 1
    ensures KeysOf(ns)[|ns| - 1] !in KeysOf(ns)[..|ns| - 1]
    ensures ns[|ns| - 1] !in ns[..|ns| - 1]
  {
    var ks := KeysOf(ns);
    var m := |ns| - 1;
    forall i | 0 <= i < m
      ensures ks[..m][i] != ks[m] && ns[..m][i] != ns[m]
    {
      assert ks[i] != ks[m];
    }
  }

  /** Dropping the last node of the list and its key from `hash` keeps the index. */
  lemma ChopIndexed(ns: seq<Node>, hash: map<string, Node>)
    requires Indexed(ns, hash) && |ns| >= 1
    ensures Indexed(ns[..|ns| - 1], hash - {ns[|ns| - 1].key})
    ensures |hash - {ns[|ns| - 1].key}| == |hash| - 1
  {
    var ks := KeysOf(ns);
    var m := |ns| - 1;
    var last := ns[m].key;
    KeysOfSlice(ns, 0, m);
    LastOnce(ns, hash);
    assert ks == ks[..m] + [last];
    assert (hash - {last}).Keys == hash.Keys - {last};
    assert ns[m] in ns;
    forall n | n in ns[..m]
      ensures n.key in hash - {last} && (hash - {last})[n.key] == n
    {
      assert n in ns;
    }
  }

  /** The abstract state a node list and its index stand for. */
  ghost function Abstract(ns: seq<Node>, hash: map<string, Node>): Lru.View {
    Lru.View(KeysOf(ns), ValsOf(hash))
  }

  /** The node `hash` holds for `key` sits in the list at a position `p`, and has that key. */
  lemma Position(ns: seq<Node>, hash: map<string, Node>, key: string) returns (p: nat)
    requires Indexed(ns, hash) && key in hash
    ensures p < |ns| && ns[p] == hash[key] && ns[p].key == key
  {
    p := IndexOf(KeysOf(ns), key);
    assert ns[p] in ns;
  }

  /** A `Get` of the head's key leaves the list as it is: the abstract hit
      moves the key to where it already is, answers its value and calls nothing. */
  lemma HeadStep(ns: seq<Node>, hash: map<string, Node>, key: string, maxSize: int, lookup: Resolver)
    requires Indexed(ns, hash) && ns != [] && 1 <= maxSize
    requires key in hash && hash[key] == ns[0]
    ensures var o := Lru.Get(Abstract(ns, hash), maxSize, lookup, key);
      o == Outcome(Abstract(ns, hash), Reply(ns[0].val, None), false)
  {
    var p := Position(ns, hash, key);
    assert KeysOf(ns)[0] == key;
    WithoutHead(KeysOf(ns));
  }

  /** A `Get` of the key of node `ns[p]`: moving the node to the front is the
      abstract hit. */
  lemma HitStep(ns: seq<Node>, hash: map<string, Node>, p: nat, maxSize: int, lookup: Resolver)
    requires Indexed(ns, hash) && p < |ns| && 1 <= maxSize
    ensures var o := Lru.Get(Abstract(ns, hash), maxSize, lookup, ns[p].key);
      && o == Outcome(Abstract(Moved(ns[p], ns, p), hash), Reply(ns[p].val, None), false)
      && Indexed(Moved(ns[p], ns, p), hash)
      && Elems(Moved(ns[p], ns, p)) == Elems(ns)
  {
    assert ns[p] in ns && KeysOf(ns)[p] == ns[p].key;
    PromoteIndexed(ns, hash, p);
  }

  /** A `Get` of a missing key with room to spare: putting the resolver's
      node `n` in front and into `hash` is the abstract miss. */
  lemma MissStep(ns: seq<Node>, hash: map<string, Node>, n: Node, maxSize: int, lookup: Resolver)
    requires Indexed(ns, hash) && n.key !in hash && |ns| < maxSize
    requires lookup(n.key) == Reply(n.val, None)
    ensures var o := Lru.Get(Abstract(ns, hash), maxSize, lookup, n.key);
      && o == Outcome(Abstract(Moved(n, ns, -1), hash[n.key := n]), Reply(n.val, None), true)
      && Indexed(Moved(n, ns, -1), hash[n.key := n])
      && Elems(Moved(n, ns, -1)) == Elems(ns) + {n}
      && |hash[n.key := n]| == |hash| + 1
  {
    InsertIndexed(ns, hash, n);
    KeysOfCons(n, ns);
    ElemsCons(n, ns);
    ValsOfInsert(hash, n);
  }

  /** The keys after inserting `n` in front and dropping the last node. */
  lemma EvictKeys(ns: seq<Node>, n: Node)
    requires |ns| >= 1
    ensures KeysOf(Moved(n, ns, -1)[..|ns|]) == [n.key] + KeysOf(ns)[..|ns| - 1]
  {
    assert Moved(n, ns, -1)[..|ns|] == [n] + ns[..|ns| - 1];
    KeysOfCons(n, ns[..|ns| - 1]);
    KeysOfSlice(ns, 0, |ns| - 1);
  }

  lemma EvictVals(hash: map<string, Node>, n: Node, k: string)
    ensures ValsOf(hash[n.key := n] - {k}) == ValsOf(hash)[n.key := n.val] - {k}
  {
  }

  /** Inserting `n` in front and dropping the last node and its key keeps the index. */
  lemma EvictIndexed(ns: seq<Node>, hash: map<string, Node>, n: Node)
    requires Indexed(ns, hash) && n.key !in hash && |ns| >= 1
    ensures var r := Moved(n, ns, -1)[..|ns|];
      var h := hash[n.key := n] - {ns[|ns| - 1].key};
      && Indexed(r, h)
      && Elems(r) <= Elems(ns) + {n} && ns[|ns| - 1] !in r
      && |h| == |hash|
  {
    var m := Moved(n, ns, -1);
    assert m == [n] + ns && m[|ns|] == ns[|ns| - 1];
    InsertIndexed(ns, hash, n);
    ChopIndexed(m, hash[n.key := n]);
    LastOnce(m, hash[n.key := n]);
    ElemsCons(n, ns);
    assert forall x | x in m[..|ns|] :: x in m;
  }

  /** A `Get` of a missing key when the cache is full: putting `n` in front
      and then dropping the last node and its key is the abstract eviction. */
  lemma EvictStep(ns: seq<Node>, hash: map<string, Node>, n: Node, maxSize: int, lookup: Resolver)
    requires Indexed(ns, hash) && n.key !in hash && 1 <= maxSize <= |ns|
    requires lookup(n.key) == Reply(n.val, None)
    ensures var r := Moved(n, ns, -1)[..|ns|];
      var h := hash[n.key := n] - {ns[|ns| - 1].key};
      var o := Lru.Get(Abstract(ns, hash), maxSize, lookup, n.key);
      && o == Outcome(Abstract(r, h), Reply(n.val, None), true)
      && Indexed(r, h)
      && Elems(r) <= Elems(ns) + {n} && ns[|ns| - 1] !in r
      && |h| == |hash|
  {
    EvictKeys(ns, n);
    EvictVals(hash, n, ns[|ns| - 1].key);
    EvictIndexed(ns, hash, n);
    assert KeysOf(ns)[|ns| - 1] == ns[|ns| - 1].key;
  }

  /** The list after `Get` has moved node `n` to its front (see `Moved`),
      without its last node when `chop`. */
  ghost function Relinked(n: Node, ns: seq<Node>, p: int, chop: bool): seq<Node>
    requires p < |ns|
  {
    if chop then Moved(n, ns, p)[..|ns|] else Moved(n, ns, p)
  }

  /** Relinking node `n` (a hit on `ns[p]`, a miss with room, or a miss that
      evicts) leaves a list that is again indexed by the updated map, within
      capacity, and made of the old nodes and `n`. `hash` is the map once the
      new node, if any, is entered. */
  lemma RelinkIndexed(ns: seq<Node>, h0: map<string, Node>, hash: map<string, Node>, n: Node,
                      p: int, chop: bool, maxSize: int)
    requires Indexed(ns, h0) && |ns| == |h0| <= maxSize && 1 <= maxSize
    requires p >= 0 ==> p < |ns| && n == ns[p] && hash == h0 && !chop
    requires p < 0 ==> n.key !in h0 && hash == h0[n.key := n] && (chop <==> |ns| >= maxSize)
    ensures var r := Relinked(n, ns, p, chop);
      var h := if chop then hash - {ns[|ns| - 1].key} else hash;
      && Indexed(r, h) && Elems(r) <= Elems(ns) + {n}
      && |r| == |h| <= maxSize
      && |r| == (if p < 0 && !chop then |ns| + 1 else |ns|)
  {
    if p >= 0 {
      PromoteIndexed(ns, h0, p);
    } else if chop {
      EvictIndexed(ns, h0, n);
    } else {
      assert Moved(n, ns, p) == [n] + ns;
      InsertIndexed(ns, h0, n);
      ElemsCons(n, ns);
    }
  }

  /** A `Get` that relinks node `n`, in each of its three cases, is the
      abstract `Get`: the relinked list with the updated map is the new
      abstract state, the reply is the node's value, and the resolver was
      called exactly on a miss. */
  lemma RelinkStep(ns: seq<Node>, h0: map<string, Node>, hash: map<string, Node>, n: Node,
                   p: int, chop: bool, maxSize: int, lookup: Resolver)
    requires Indexed(ns, h0) && |ns| == |h0| <= maxSize && 1 <= maxSize
    requires p >= 0 ==> p < |ns| && n == ns[p] && hash == h0 && !chop
    requires p < 0 ==>
      && n.key !in h0 && hash == h0[n.key := n] && lookup(n.key) == Reply(n.val, None)
      && (chop <==> |ns| >= maxSize)
    ensures var r := Relinked(n, ns, p, chop);
      var h := if chop then hash - {ns[|ns| - 1].key} else hash;
      Lru.Get(Abstract(ns, h0), maxSize, lookup, n.key) == Outcome(Abstract(r, h), Reply(n.val, None), p < 0)
  {
    if p >= 0 {
      HitStep(ns, h0, p, maxSize, lookup);
    } else if chop {
      EvictStep(ns, h0, n, maxSize, lookup);
    } else {
      MissStep(ns, h0, n, maxSize, lookup);
    }
  }

  class Cache {
    var head: Node?
    var tail: Node?
    var hash: map<string, Node>
    const lookupFunc: Resolver
    var count: int
    const maxSize: int

    /** The recency list from head to tail. */
    ghost var nodes: seq<Node>
    /** The objects the cache is made of: itself and the nodes of the list. */
    ghost var Repr: set<object>

    /** The cache invariant: the list is a well-formed doubly linked list from
        `head` to `tail` (`next` and `prev` inverse, ends nil), the map and the
        list hold the same keys, each key once, and `count` is their number,
        at most `maxSize`. */
    ghost predicate Valid()
      reads this, Repr
      ensures Valid() ==> this in Repr
    {
      && this in Repr
      && 1 <= maxSize
      && count == |nodes| == |hash|
      && count <= maxSize
      && Elems(nodes) <= Repr
      && Indexed(nodes, hash)
      && Linked(nodes, head, tail)
    }

    /** The abstract state: keys from most to least recently used, and the cached values. */
    ghost function View(): Lru.View
      reads this
    {
      Abstract(nodes, hash)
    }

    /** A valid cache stands for a well-formed abstract state: no key twice,
        order and values on the same keys, at most `maxSize` of them, one
        key per node of the list and the keys of the index. */
    lemma ViewWellFormed()
      requires Valid()
      ensures WellFormed(View(), maxSize)
      ensures |View().order| == |nodes| == count && View().vals.Keys == hash.Keys
    {
      assert forall k :: k in View().vals <==> k in hash;
    }

    /** `New(maxSize, lookupFunc)`: an empty cache. */
    constructor New(maxSize: int, lookupFunc: Resolver)
      requires 1 <= maxSize
      ensures Valid() && fresh(Repr)
      ensures this.maxSize == maxSize && this.lookupFunc == lookupFunc
      ensures hash == map[] && head == null && tail == null && count == 0
      ensures View() == Empty
    {
      this.maxSize := maxSize;
      hash := map[];
      this.lookupFunc := lookupFunc;
      head, tail, count := null, null, 0;
      nodes, Repr := [], {this};
    }

    /** `Get(key)`: answer from the cache on a hit, from `lookupFunc` on a miss,
        and move `key` to the head of the recency list. `called` records
        whether `lookupFunc` was invoked. */
    method Get(key: string) returns (val: string, err: Option<string>, ghost called: bool)
      requires Valid()
      modifies Repr
      ensures Valid() && fresh(Repr - old(Repr))
      ensures var o := Lru.Get(old(View()), maxSize, lookupFunc, key);
        View() == o.view && Reply(val, err) == o.reply && called == o.called
      ensures err.None? ==> head != null && head.key == key && head.val == val
      ensures err.Some? || (old(head) != null && old(head).key == key) ==> unchanged(this)
    {
      ghost var ns, h0 := nodes, hash;
      var valNode, chopTail, answer;
      valNode, chopTail, answer, called := Fetch(key);
      if valNode == null {
        // the resolver failed: its reply is the answer
      } else if valNode == head {
        // fast path: the node is already the head
        HeadStep(ns, h0, key, maxSize, lookupFunc);
      } else {
        ghost var p: int := -1;
        if key in h0 {
          p := Position(ns, h0, key);
        }
        assert head == null || head.key != key by {
          if ns != [] { assert ns[0] in ns; }
        }
        ghost var h1 := hash;
        RelinkIndexed(ns, h0, h1, valNode, p, chopTail, maxSize);
        Promote(valNode, chopTail, ns, p, Relinked(valNode, ns, p, chopTail),
          if chopTail then h1 - {ns[|ns| - 1].key} else h1);
        RelinkStep(ns, h0, h1, valNode, p, chopTail, maxSize, lookupFunc);
      }
      val, err := answer.val, answer.err;
    }

    /** The first half of `Get`: find the node for `key`. On a hit it is the
        cached node and nothing changes. On a miss `lookupFunc` is asked; if
        it fails there is no node and nothing changes; otherwise a new node is
        entered in `hash` and counted or, when the cache is full, `chopTail`
        notes that the tail must go. `answer` is the reply so far. */
    method Fetch(key: string) returns (valNode: Node?, chopTail: bool, answer: Reply, ghost called: bool)
      modifies this`hash, this`Repr, this`count
      ensures unchanged(Elems(nodes)) && called == (key !in old(hash)) && fresh(Repr - old(Repr))
      ensures key in old(hash) ==>
        && valNode == old(hash)[key] && answer == Reply(valNode.val, None) && !chopTail
        && unchanged(this)
      ensures key !in old(hash) ==>
        && answer == lookupFunc(key)
        && (answer.err.Some? ==> valNode == null && unchanged(this))
        && (answer.err.None? ==>
          && valNode != null && fresh(valNode) && valNode.key == key && valNode.val == answer.val
          && valNode.prev == null && valNode.next == null
          && hash == old(hash)[key := valNode] && Repr == old(Repr) + {valNode}
          && chopTail == (old(count) >= maxSize)
          && count == if chopTail then old(count) else old(count) + 1)
    {
      chopTail, called := false, false;
      if key in hash {
        valNode := hash[key];
        return valNode, chopTail, Reply(valNode.val, None), called;
      }
      answer := lookupFunc(key);
      called := true;
      if answer.err.Some? {
        return null, chopTail, answer, called;
      }
      valNode := new Node(key, answer.val);
      hash := hash[key := valNode];
      Repr := Repr + {valNode};
      if count >= maxSize {
        chopTail := true;
      } else {
        count := count + 1;
      }
    }

    /** The rest of `Get` once `valNode` is known and is not the head: relink
        the list and, with it, the ghost list `nodes`, which becomes `r`.
        `valNode` is either `ns[p]` (a hit), or a new node already entered in
        `hash` (a miss), with `chopTail` set when the cache was full; `h` is
        the index once the tail's key is dropped. */
    method Promote(valNode: Node, chopTail: bool, ghost ns: seq<Node>, ghost p: int,
                   ghost r: seq<Node>, ghost h: map<string, Node>)
      requires this in Repr && 1 <= maxSize && nodes == ns && Elems(ns) <= Repr && valNode in Repr
      requires Linked(ns, head, tail)
      requires || (0 < p < |ns| && valNode == ns[p])
               || (p < 0 && valNode !in ns && valNode.prev == null && valNode.next == null)
      requires chopTail ==> p < 0 && |ns| >= 1
      requires p < |ns| && r == Relinked(valNode, ns, p, chopTail)
      requires h == if chopTail then hash - {ns[|ns| - 1].key} else hash
      requires Indexed(r, h) && Elems(r) <= Repr && |r| == |h| == count <= maxSize
      modifies this`head, this`tail, this`hash, this`nodes, valNode, Elems(ns)
      ensures Valid() && head == valNode && nodes == r && hash == h
      ensures unchanged(this`Repr, this`count)
    {
      nodes := r;
      Relink(valNode, chopTail, ns, p);
    }

    /** Move `valNode` to the head of the list `ns` and, when `chopTail`, drop
        the tail node and its key from `hash`. `valNode` is either `ns[p]`, not
        the head, or a new node outside the list. */
    method Relink(valNode: Node, chopTail: bool, ghost ns: seq<Node>, ghost p: int)
      requires Linked(ns, head, tail)
      requires || (0 < p < |ns| && valNode == ns[p])
               || (p < 0 && valNode !in ns && valNode.prev == null && valNode.next == null)
      requires chopTail ==> p < 0 && |ns| >= 1
      modifies this`head, this`tail, this`hash, valNode, Elems(ns)
      ensures Linked(Relinked(valNode, ns, p, chopTail), head, tail)
        && hash == if chopTail then old(hash) - {ns[|ns| - 1].key} else old(hash)
    {
      LinkedDistinct(ns, head, tail);
      Unlink(valNode, ns, p);
      ghost var rest := if p < 0 then ns else ns[..p] + ns[p + 1..];
      PushFront(valNode, rest);
      ghost var m := Moved(valNode, ns, p);
      assert m == [valNode] + rest;
      if chopTail {
        assert |m| - 1 == |ns| && m[|ns|] == ns[|ns| - 1];
        ChopTail(m);
      }
    }

    /** Take `valNode` out of the list.
        `valNode` is either `ns[p]`, not the head, or a new node outside the
        list, for which nothing changes. */
    method Unlink(valNode: Node, ghost ns: seq<Node>, ghost p: int)
      requires Linked(ns, head, tail)
      requires || (0 < p < |ns| && valNode == ns[p])
               || (p < 0 && valNode !in ns && valNode.prev == null && valNode.next == null)
      modifies this`tail, Elems(ns)
      ensures Linked(if p < 0 then ns else ns[..p] + ns[p + 1..], head, tail)
      ensures p < 0 ==> tail == old(tail)
    {
      LinkedDistinct(ns, head, tail);
      if valNode.prev != null {
        valNode.prev.next := valNode.next;
      }
      if valNode.next != null {
        valNode.next.prev := valNode.prev;
      }
      if tail == valNode {
        tail := valNode.prev;
        if tail != null {
          tail.next := null;
        }
      }
    }

    /** Make `valNode`, which is not in the list `ns`, its new head. */
    method PushFront(valNode: Node, ghost ns: seq<Node>)
      requires Linked(ns, head, tail) && valNode !in ns
      modifies this`head, this`tail, valNode, Elems(ns)
      ensures Linked([valNode] + ns, head, tail)
    {
      LinkedDistinct(ns, head, tail);
      valNode.prev := null;
      if head != null {
        head.prev := valNode;
      }
      valNode.next := head;
      head := valNode;
      if tail == null {
        tail := valNode;
      }
    }

    /** Drop the tail of a list of at least two nodes, and its key from `hash`. */
    method ChopTail(ghost ns: seq<Node>)
      requires Linked(ns, head, tail) && |ns| >= 2
      modifies this`hash, this`tail, Elems(ns)
      ensures Linked(ns[..|ns| - 1], head, tail)
      ensures hash == old(hash) - {ns[|ns| - 1].key}
    {
      LinkedDistinct(ns, head, tail);
      hash := hash - {tail.key};
      tail := tail.prev;
      tail.next := null;
    }
  }
}
