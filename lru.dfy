/** The abstract behaviour of the autocache LRU cache, stated on values.

    The cache's observable state is its recency order (keys from the most to the
    least recently used) and the value cached under each key. `Get` is one call
    of `Cache.Get`; `Run` is a sequence of such calls. The lemmas below are the
    properties the cache promises: the capacity bound, promotion to the head,
    preserved relative order, eviction of the least recently used key, failure
    isolation and transparency with respect to the resolver. */
module Lru {

  datatype Option<T> = None | Some(value: T)

  /** What the resolver and `Get` answer: Go's `(string, error)` pair, the error
      represented by its message. */
  datatype Reply = Reply(val: string, err: Option<string>)

  /** The caller-supplied lookup function, fixed at construction. */
  type Resolver = string -> Reply

  /** Abstract cache state: keys ordered from most to least recently used,
      and the value held for each key. */
  datatype View = View(order: seq<string>, vals: map<string, string>)

  /** The result of one `Get`: the new state, the reply, and whether the resolver was called. */
  datatype Outcome = Outcome(view: View, reply: Reply, called: bool)

  /** The result of a sequence of `Get`s: the final state, how many times the
      resolver was called, and the replies in call order. */
  datatype Trace = Trace(view: View, calls: nat, replies: seq<Reply>)

  const Empty: View := View([], map[])

  ghost predicate Distinct(s: seq<string>) {
    forall i, j | 0 <= i < j < |s| :: s[i] != s[j]
  }

  /** The state invariant: no key twice in the order, order and map hold the
      same keys, and at most `maxSize` of them. */
  ghost predicate WellFormed(v: View, maxSize: int) {
    && Distinct(v.order)
    && (forall k :: k in v.vals <==> k in v.order)
    && |v.order| <= maxSize
  }

  /** Every cached value is what the resolver answers, without error, for its key. */
  ghost predicate Consistent(v: View, lookup: Resolver) {
    forall k | k in v.vals :: lookup(k) == Reply(v.vals[k], None)
  }

  /** `s` with `x` taken out, the other elements in their order. */
  function Without(s: seq<string>, x: string): (r: seq<string>)
    ensures forall y :: y in r <==> y in s && y != x
    ensures Distinct(s) ==> Distinct(r)
    ensures |r| <= |s|
  {
    if s == [] then []
    else if s[0] == x then Without(s[1..], x)
    else
      var rest := Without(s[1..], x);
      assert Distinct(s) ==> s[0] !in s[1..] && Distinct(s[1..]);
      [s[0]] + rest
  }

  lemma DistinctCons(x: string, s: seq<string>)
    requires Distinct(s) && x !in s
    ensures Distinct([x] + s)
  {
    assert forall j | 0 < j < |[x] + s| :: ([x] + s)[j] == s[j - 1];
  }

  /** In a sequence without repeats, taking out the element at `p` is cutting position `p`. */
  lemma {:induction false} WithoutAt(s: seq<string>, p: nat)
    requires Distinct(s) && p < |s|
    ensures Without(s, s[p]) == s[..p] + s[p + 1..]
  {
    if p == 0 {
      assert s[0] !in s[1..];
      WithoutAbsent(s[1..], s[0]);
    } else {
      assert Distinct(s[1..]) && s[1..][p - 1] == s[p];
      WithoutAt(s[1..], p - 1);
      assert s[..p] == [s[0]] + s[1..][..p - 1];
      assert s[p + 1..] == s[1..][p..];
    }
  }

  /** Moving the element at `p` of a sequence without repeats to the front
      keeps it without repeats, with the same elements. */
  lemma MoveToFront(s: seq<string>, p: nat)
    requires Distinct(s) && p < |s|
    ensures [s[p]] + (s[..p] + s[p + 1..]) == [s[p]] + Without(s, s[p])
    ensures Distinct([s[p]] + (s[..p] + s[p + 1..]))
    ensures forall y :: y in [s[p]] + (s[..p] + s[p + 1..]) <==> y in s
  {
    WithoutAt(s, p);
    DistinctCons(s[p], Without(s, s[p]));
  }

  /** Moving the first element of a sequence without repeats to the front changes nothing. */
  lemma WithoutHead(s: seq<string>)
    requires Distinct(s) && s != []
    ensures [s[0]] + Without(s, s[0]) == s
  {
    WithoutAt(s, 0);
  }

  /** Taking out an element that is not there changes nothing. */
  lemma {:induction false} WithoutAbsent(s: seq<string>, x: string)
    requires x !in s
    ensures Without(s, x) == s
  {
    if s != [] {
      assert x !in s[1..];
      WithoutAbsent(s[1..], x);
      assert s == [s[0]] + s[1..];
    }
  }

  /** The position of `x` in `s`. */
  function IndexOf(s: seq<string>, x: string): (i: nat)
    requires x in s
    ensures i < |s| && s[i] == x && x !in s[..i]
  {
    if s[0] == x then 0
    else
      var j := IndexOf(s[1..], x);
      assert s[..j + 1] == [s[0]] + s[1..][..j];
      j + 1
  }

  /** One `Get(key)` on state `v`: a hit promotes `key` without calling the
      resolver; a miss calls it once; a failure leaves the state alone; a
      successful miss puts `key` at the head and, when the cache already holds
      `maxSize` keys, drops the least recently used one. */
  function Get(v: View, maxSize: int, lookup: Resolver, key: string): (o: Outcome)
    requires 1 <= maxSize
    ensures o.called <==> key !in v.vals
    ensures o.reply.err.Some? ==> o.view == v && o.reply == lookup(key)
  {
    if key in v.vals then
      Outcome(View([key] + Without(v.order, key), v.vals), Reply(v.vals[key], None), false)
    else
      var answer := lookup(key);
      if answer.err.Some? then
        Outcome(v, answer, true)
      else if |v.order| >= maxSize then
        var lru := v.order[|v.order| - 1];
        Outcome(View([key] + v.order[..|v.order| - 1], v.vals[key := answer.val] - {lru}),
                Reply(answer.val, None), true)
      else
        Outcome(View([key] + v.order, v.vals[key := answer.val]), Reply(answer.val, None), true)
  }

  /** Taking a present key out of a sequence without repeats shortens it by one. */
  lemma WithoutPresent(s: seq<string>, x: string)
    requires Distinct(s) && x in s
    ensures |Without(s, x)| == |s| - 1 && x !in Without(s, x)
  {
    var p := IndexOf(s, x);
    WithoutAt(s, p);
  }

  /** The prefix of a sequence without its last element, when it holds no repeats. */
  lemma DropLast(s: seq<string>)
    requires Distinct(s) && s != []
    ensures Distinct(s[..|s| - 1])
    ensures forall y :: y in s[..|s| - 1] <==> y in s && y != s[|s| - 1]
  {
    assert forall i | 0 <= i < |s| - 1 :: s[..|s| - 1][i] == s[i];
  }

  /** `Get` keeps the state well formed: no key twice, order and map agree on
      the keys, at most `maxSize` keys. The cache never shrinks, and after a
      successful `Get` it holds at least the requested key. */
  lemma GetWellFormed(v: View, maxSize: int, lookup: Resolver, key: string)
    requires 1 <= maxSize && WellFormed(v, maxSize)
    ensures var o := Get(v, maxSize, lookup, key);
      && WellFormed(o.view, maxSize)
      && |v.order| <= |o.view.order|
      && (o.reply.err.None? ==> key in o.view.vals && key in o.view.order)
  {
    if key in v.vals {
      HitWellFormed(v, maxSize, key);
    } else if lookup(key).err.None? {
      assert key !in v.order;
      if |v.order| >= maxSize {
        EvictWellFormed(v, maxSize, key, lookup(key).val);
      } else {
        DistinctCons(key, v.order);
      }
    }
  }

  /** A hit moves the key to the front and keeps the state well formed. */
  lemma HitWellFormed(v: View, maxSize: int, key: string)
    requires WellFormed(v, maxSize) && key in v.vals
    ensures WellFormed(View([key] + Without(v.order, key), v.vals), maxSize)
    ensures |[key] + Without(v.order, key)| == |v.order|
  {
    WithoutPresent(v.order, key);
    DistinctCons(key, Without(v.order, key));
  }

  /** A miss on a full cache drops the least recently used key and keeps the
      state well formed. */
  lemma EvictWellFormed(v: View, maxSize: int, key: string, val: string)
    requires WellFormed(v, maxSize) && key !in v.order && |v.order| >= maxSize >= 1
    ensures WellFormed(View([key] + v.order[..|v.order| - 1], v.vals[key := val] - {v.order[|v.order| - 1]}), maxSize)
  {
    DropLast(v.order);
    DistinctCons(key, v.order[..|v.order| - 1]);
  }

  /** After a successful `Get(key)`, `key` is the most recently used and the
      other keys keep their relative order: with `key` taken out, the new
      order is a prefix of the old one with `key` taken out. Only the least
      recently used keys can have been dropped. */
  lemma GetOrder(v: View, maxSize: int, lookup: Resolver, key: string)
    requires 1 <= maxSize && WellFormed(v, maxSize)
    ensures var o := Get(v, maxSize, lookup, key);
      && Without(o.view.order, key) <= Without(v.order, key)
      && (o.reply.err.None? ==> o.view.order == [key] + Without(o.view.order, key))
  {
    var o := Get(v, maxSize, lookup, key);
    if key in v.vals {
      WithoutPresent(v.order, key);
      WithoutAbsent(Without(v.order, key), key);
      assert Without(o.view.order, key) == Without(Without(v.order, key), key);
    } else if o.reply.err.None? {
      assert key !in v.order;
      WithoutAbsent(v.order, key);
      var rest := if |v.order| >= maxSize then v.order[..|v.order| - 1] else v.order;
      assert key !in rest;
      WithoutAbsent(rest, key);
      assert o.view.order == [key] + rest;
      assert Without(o.view.order, key) == Without(rest, key);
    }
  }

  /** A successful miss on a full cache evicts exactly one key, the least
      recently used one, which is never the key just inserted; the number of
      keys stays the same. */
  lemma GetEvicts(v: View, maxSize: int, lookup: Resolver, key: string)
    requires 1 <= maxSize && WellFormed(v, maxSize)
    requires key !in v.vals && lookup(key).err.None? && |v.order| >= maxSize
    ensures var o := Get(v, maxSize, lookup, key);
      var lru := v.order[|v.order| - 1];
      && lru != key
      && o.view.vals.Keys == v.vals.Keys + {key} - {lru}
      && |o.view.order| == |v.order| == maxSize
  {
    assert v.order[|v.order| - 1] in v.order;
  }

  /** A successful miss on a cache that is not full evicts nothing: the new
      key joins the old ones. */
  lemma GetInserts(v: View, maxSize: int, lookup: Resolver, key: string)
    requires 1 <= maxSize && WellFormed(v, maxSize)
    requires key !in v.vals && lookup(key).err.None? && |v.order| < maxSize
    ensures var o := Get(v, maxSize, lookup, key);
      && o.view.vals.Keys == v.vals.Keys + {key}
      && |o.view.order| == |v.order| + 1
  {
  }

  /** A cache whose values are what the resolver answers stays so, and every
      reply of `Get` is exactly what the resolver would answer for the key:
      the cache is transparent. */
  lemma GetConsistent(v: View, maxSize: int, lookup: Resolver, key: string)
    requires 1 <= maxSize && Consistent(v, lookup)
    ensures var o := Get(v, maxSize, lookup, key);
      Consistent(o.view, lookup) && o.reply == lookup(key)
  {
  }

  /** The calls `Get(keys[0])`, `Get(keys[1])`, ... in order: the final state,
      the number of resolver calls and the replies. */
  function Run(v: View, maxSize: int, lookup: Resolver, keys: seq<string>): (t: Trace)
    requires 1 <= maxSize
    ensures t.calls <= |keys| && |t.replies| == |keys|
    decreases |keys|
  {
    if keys == [] then Trace(v, 0, [])
    else
      var t := Run(v, maxSize, lookup, keys[..|keys| - 1]);
      var o := Get(t.view, maxSize, lookup, keys[|keys| - 1]);
      Trace(o.view, t.calls + (if o.called then 1 else 0), t.replies + [o.reply])
  }

  /** Running the first `i + 1` calls is running the first `i` and then one more. */
  lemma RunSnoc(v: View, maxSize: int, lookup: Resolver, keys: seq<string>, i: nat)
    requires 1 <= maxSize && i < |keys|
    ensures var t := Run(v, maxSize, lookup, keys[..i]);
      var o := Get(t.view, maxSize, lookup, keys[i]);
      Run(v, maxSize, lookup, keys[..i + 1])
        == Trace(o.view, t.calls + (if o.called then 1 else 0), t.replies + [o.reply])
  {
    assert keys[..i + 1][..i] == keys[..i];
  }

  /** If the first `i` calls end in state `w` after `n` resolver calls, the
      first `i + 1` end in the state that call `i`, a `Get(key)`, leads to
      from `w`. */
  lemma Extend(v: View, maxSize: int, lookup: Resolver, keys: seq<string>, i: nat, key: string, w: View, n: nat)
    requires 1 <= maxSize && i < |keys| && keys[i] == key
    requires Run(v, maxSize, lookup, keys[..i]).view == w && Run(v, maxSize, lookup, keys[..i]).calls == n
    ensures var o := Get(w, maxSize, lookup, key);
      && Run(v, maxSize, lookup, keys[..i + 1]).view == o.view
      && Run(v, maxSize, lookup, keys[..i + 1]).calls == n + (if o.called then 1 else 0)
  {
    RunSnoc(v, maxSize, lookup, keys, i);
  }

  /** Every state reached by a sequence of `Get`s is well formed. */
  lemma {:induction false} RunWellFormed(v: View, maxSize: int, lookup: Resolver, keys: seq<string>)
    requires 1 <= maxSize && WellFormed(v, maxSize)
    ensures WellFormed(Run(v, maxSize, lookup, keys).view, maxSize)
    decreases |keys|
  {
    if keys != [] {
      var front := keys[..|keys| - 1];
      RunWellFormed(v, maxSize, lookup, front);
      GetWellFormed(Run(v, maxSize, lookup, front).view, maxSize, lookup, keys[|keys| - 1]);
    }
  }

  /** From a consistent state, every reply of a sequence of `Get`s is the
      resolver's answer for that key. */
  lemma {:induction false} RunTransparent(v: View, maxSize: int, lookup: Resolver, keys: seq<string>)
    requires 1 <= maxSize && Consistent(v, lookup)
    ensures var t := Run(v, maxSize, lookup, keys);
      && Consistent(t.view, lookup)
      && forall i | 0 <= i < |keys| :: t.replies[i] == lookup(keys[i])
    decreases |keys|
  {
    if keys != [] {
      var front := keys[..|keys| - 1];
      RunTransparent(v, maxSize, lookup, front);
      GetConsistent(Run(v, maxSize, lookup, front).view, maxSize, lookup, keys[|keys| - 1]);
    }
  }

  /** When every requested key is already cached, the resolver is never
      called and the cached keys and values stay the same. */
  lemma {:induction false} RunAllHits(v: View, maxSize: int, lookup: Resolver, keys: seq<string>)
    requires 1 <= maxSize && forall k | k in keys :: k in v.vals
    ensures var t := Run(v, maxSize, lookup, keys);
      t.calls == 0 && t.view.vals == v.vals
    decreases |keys|
  {
    if keys != [] {
      var front := keys[..|keys| - 1];
      assert forall k | k in front :: k in keys;
      RunAllHits(v, maxSize, lookup, front);
      assert keys[|keys| - 1] in keys;
    }
  }

  /** The prefix of a sequence without repeats has no repeats. */
  lemma DistinctPrefix(s: seq<string>, n: nat)
    requires Distinct(s) && n <= |s|
    ensures Distinct(s[..n])
  {
    assert forall i | 0 <= i < n :: s[..n][i] == s[i];
  }

  /** Asking an empty cache for at most `maxSize` different keys, each of
      which the resolver answers, misses every time and caches them all:
      nothing is evicted. */
  lemma {:induction false} RunFills(maxSize: int, lookup: Resolver, ks: seq<string>)
    requires 1 <= maxSize && Distinct(ks) && |ks| <= maxSize
    requires forall k | k in ks :: lookup(k).err.None?
    ensures var t := Run(Empty, maxSize, lookup, ks);
      && t.view.vals.Keys == (set k | k in ks)
      && |t.view.order| == |ks|
      && t.calls == |ks|
    decreases |ks|
  {
    if ks != [] {
      var n := |ks| - 1;
      var front, key := ks[..n], ks[n];
      assert ks == front + [key];
      DistinctPrefix(ks, n);
      assert key !in front by {
        forall i | 0 <= i < n ensures front[i] != key { assert ks[i] != ks[n]; }
      }
      RunFills(maxSize, lookup, front);
      RunWellFormed(Empty, maxSize, lookup, front);
      GetInserts(Run(Empty, maxSize, lookup, front).view, maxSize, lookup, key);
    }
  }

  /** Once an empty cache has been filled with at most `maxSize` different
      keys, asking again for any of them, in any order and any number of
      times, never calls the resolver and changes no cached value. */
  lemma RoundTrip(maxSize: int, lookup: Resolver, ks: seq<string>, again: seq<string>)
    requires 1 <= maxSize && Distinct(ks) && |ks| <= maxSize
    requires forall k | k in ks :: lookup(k).err.None?
    requires forall k | k in again :: k in ks
    ensures var filled := Run(Empty, maxSize, lookup, ks).view;
      && Run(filled, maxSize, lookup, again).calls == 0
      && Run(filled, maxSize, lookup, again).view.vals == filled.vals
  {
    RunFills(maxSize, lookup, ks);
    RunAllHits(Run(Empty, maxSize, lookup, ks).view, maxSize, lookup, again);
  }

  /** The position of the last request for `k` in `keys`, or -1 when `k` was
      never requested. */
  function LastAccess(keys: seq<string>, k: string): (r: int)
    ensures -1 <= r < |keys|
    ensures r >= 0 ==> keys[r] == k
    ensures r >= 0 <==> k in keys
    decreases |keys|
  {
    if keys == [] then -1
    else if keys[|keys| - 1] == k then |keys| - 1
    else
      var front := keys[..|keys| - 1];
      assert k in keys ==> k in front by {
        if k in keys {
          var i :| 0 <= i < |keys| && keys[i] == k;
          assert front[i] == k;
        }
      }
      LastAccess(front, k)
  }

  /** `s` lists keys from the most to the least recently requested in `keys`. */
  ghost predicate ByRecency(s: seq<string>, keys: seq<string>) {
    forall i, j | 0 <= i < j < |s| :: LastAccess(keys, s[i]) > LastAccess(keys, s[j])
  }

  /** One more request, for `key`, makes `key` the most recent and leaves
      the last access of every other key where it was. */
  lemma LastAccessSnoc(front: seq<string>, key: string, y: string)
    ensures LastAccess(front + [key], y) == if y == key then |front| else LastAccess(front, y)
  {
    assert (front + [key])[..|front|] == front;
  }

  /** A key requested more recently than every key of a recency-ordered
      sequence can go in front of it. */
  lemma ByRecencyCons(a: string, r: seq<string>, keys: seq<string>)
    requires ByRecency(r, keys)
    requires forall i | 0 <= i < |r| :: LastAccess(keys, a) > LastAccess(keys, r[i])
    ensures ByRecency([a] + r, keys)
  {
    var c := [a] + r;
    assert c[0] == a;
    assert forall k | 0 < k < |c| :: c[k] == r[k - 1];
  }

  /** Taking a key out keeps the recency order. */
  lemma {:induction false} ByRecencyWithout(s: seq<string>, keys: seq<string>, x: string)
    requires ByRecency(s, keys)
    ensures ByRecency(Without(s, x), keys)
  {
    if s != [] {
      assert ByRecency(s[1..], keys) by {
        forall i, j | 0 <= i < j < |s[1..]|
          ensures LastAccess(keys, s[1..][i]) > LastAccess(keys, s[1..][j])
        {
          assert s[1..][i] == s[i + 1] && s[1..][j] == s[j + 1];
        }
      }
      ByRecencyWithout(s[1..], keys, x);
      if s[0] != x {
        var r := Without(s[1..], x);
        forall i | 0 <= i < |r|
          ensures LastAccess(keys, s[0]) > LastAccess(keys, r[i])
        {
          assert r[i] in s[1..];
          var j :| 0 <= j < |s[1..]| && s[1..][j] == r[i];
          assert s[j + 1] == r[i];
        }
        ByRecencyCons(s[0], Without(s[1..], x), keys);
      }
    }
  }

  /** Dropping the last key keeps the recency order. */
  lemma ByRecencyPrefix(s: seq<string>, keys: seq<string>)
    requires ByRecency(s, keys) && s != []
    ensures ByRecency(s[..|s| - 1], keys)
  {
    var t := s[..|s| - 1];
    assert forall i | 0 <= i < |t| :: t[i] == s[i];
  }

  /** After a request for `key`, a recency-ordered sequence without `key`
      stays recency-ordered, and `key` goes in front of it. */
  lemma ByRecencyStep(rest: seq<string>, front: seq<string>, key: string)
    requires ByRecency(rest, front) && key !in rest
    ensures ByRecency(rest, front + [key])
    ensures ByRecency([key] + rest, front + [key])
  {
    var keys := front + [key];
    LastAccessSnoc(front, key, key);
    forall i | 0 <= i < |rest|
      ensures LastAccess(keys, rest[i]) == LastAccess(front, rest[i]) < |front| == LastAccess(keys, key)
    {
      assert rest[i] in rest;
      LastAccessSnoc(front, key, rest[i]);
    }
    ByRecencyCons(key, rest, keys);
  }

  /** The recency order of an LRU cache: after any sequence of requests on an
      empty cache, the cached keys are ordered by their last request, most
      recent first. */
  lemma {:induction false} RunRecency(maxSize: int, lookup: Resolver, keys: seq<string>)
    requires 1 <= maxSize
    ensures ByRecency(Run(Empty, maxSize, lookup, keys).view.order, keys)
    decreases |keys|
  {
    if keys != [] {
      var n := |keys| - 1;
      var front, key := keys[..n], keys[n];
      assert keys == front + [key];
      RunRecency(maxSize, lookup, front);
      RunWellFormed(Empty, maxSize, lookup, front);
      var v := Run(Empty, maxSize, lookup, front).view;
      if key in v.vals {
        ByRecencyWithout(v.order, front, key);
        WithoutPresent(v.order, key);
        ByRecencyStep(Without(v.order, key), front, key);
      } else if lookup(key).err.Some? {
        ByRecencyStep(v.order, front, key);
      } else if |v.order| >= maxSize {
        ByRecencyPrefix(v.order, front);
        assert key !in v.order[..|v.order| - 1] by {
          DropLast(v.order);
        }
        ByRecencyStep(v.order[..|v.order| - 1], front, key);
      } else {
        ByRecencyStep(v.order, front, key);
      }
    }
  }

  /** In a recency-ordered sequence the last key has the oldest last request. */
  lemma LastIsLeastRecent(s: seq<string>, keys: seq<string>)
    requires ByRecency(s, keys) && s != []
    ensures forall k | k in s && k != s[|s| - 1] :: LastAccess(keys, s[|s| - 1]) < LastAccess(keys, k)
  {
    forall k | k in s && k != s[|s| - 1]
      ensures LastAccess(keys, s[|s| - 1]) < LastAccess(keys, k)
    {
      var i :| 0 <= i < |s| && s[i] == k;
    }
  }

  /** When a request misses on a full cache reached by `keys`, the key it
      evicts is the one whose last request is the oldest of all cached keys. */
  lemma RunEvictsLeastRecent(maxSize: int, lookup: Resolver, keys: seq<string>, v: View, key: string)
    requires 1 <= maxSize && v == Run(Empty, maxSize, lookup, keys).view
    requires key !in v.vals && lookup(key).err.None? && |v.order| >= maxSize
    ensures var lru := v.order[|v.order| - 1];
      && lru in v.vals && lru !in Get(v, maxSize, lookup, key).view.vals
      && forall k | k in v.vals && k != lru :: LastAccess(keys, lru) < LastAccess(keys, k)
  {
    RunWellFormed(Empty, maxSize, lookup, keys);
    RunRecency(maxSize, lookup, keys);
    GetEvicts(v, maxSize, lookup, key);
    LastIsLeastRecent(v.order, keys);
  }
}
