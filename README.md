# autocache in Dafny

A model of `autocache`, a memoising least-recently-used cache for Go. A
`Cache` is built by `New(maxSize, lookupFunc)`. It holds at most `maxSize`
string keys with their values. `Get(key)` answers from the cache on a hit.
On a miss it asks the caller's `lookupFunc` and keeps the answer, evicting
the least recently used key when the cache is full. A failed lookup is
passed through and nothing is cached.

The project has three modules:

- `Lru` (`lru.dfy`) is the abstract behaviour, stated on values. A `View`
  is the recency order (keys from most to least recently used) plus the
  value of each key. `Lru.Get` is one call; `Lru.Run` is a sequence of
  calls. The lemmas state the cache's promises:
  - the capacity bound and the invariant that order and map agree;
  - promotion to the head, with the other keys keeping their relative order;
  - eviction of exactly the least recently used key, and an order that
    follows each cached key's last request;
  - a failed lookup changes nothing;
  - hits never call the resolver;
  - every reply is what the resolver answers for the key (transparency).
- `AutoCache` (`autocache.dfy`) is the Go data structure itself. The class
  `Cache` has the fields `head`, `tail`, `hash`, `lookupFunc`, `count` and
  `maxSize`. The class `Node` has `key`, `val`, `next` and `prev`.
  - `Cache.Get` changes the links step by step, in the order the Go code does:
    unlink the node, push it at the head, chop the tail.
  - A ghost sequence `nodes` records the list from `head` to `tail`, and the
    invariant `Valid` ties it to the pointers and to `hash`.
  - `Get` is proved to refine `Lru.Get`: its new abstract state, reply and
    resolver use are exactly those of the abstract step.
- `AutoCacheTest` (`autocache_test.dfy`) is the package's test. A cache of
  capacity 3 over a four-word dictionary is asked for seven words. The
  resolver is called five times.

The resolver is a pure function value of type `string -> Reply`. `Reply` is
Go's `(string, error)` pair, with the error represented by its message. The
ghost out-parameter `called` of `Cache.Get` records whether the resolver was
asked. That flag is what the test's `hitCount` counter observes.

## Model

| member | source | states |
|---|---|---|
| AutoCache.Node.constructor | autocache.go:40 | a new node carries the given key and value and has nil `next` and `prev`, as the `node` literal does; the fields are those of the `node` struct at autocache.go:17-22 |
| AutoCache.Cache.Valid | autocache.go:7-15 | the invariant on the `Cache` fields: `head` and `tail` are the ends of a doubly linked list (nil exactly when it is empty) whose `next` and `prev` links are inverse, `hash` maps exactly the list's keys to their nodes, each key once, and `count` is the number of nodes, between 0 and `maxSize`, with `maxSize >= 1` |
| AutoCache.Cache.View | autocache.go:7-15 | the abstraction of the fields: the keys of the list from `head` to `tail`, and the value of each key's node in `hash` |
| AutoCache.Cache.ViewWellFormed | autocache.go:7-15 | a valid cache stands for a well-formed abstract state, with one key per node and exactly the keys of `hash`, and `count` keys |
| AutoCache.Cache.New | autocache.go:24-30 | the new cache is empty: no nodes, empty `hash`, nil `head` and `tail`, `count` 0, and `maxSize` and `lookupFunc` are stored as given; its abstract state is the empty view and the invariant holds |
| AutoCache.Cache.Get | autocache.go:32-101 | keeps the invariant: the list is doubly linked from `head` to `tail`, `hash` holds exactly its keys, and `count` equals their number, at most `maxSize`; the new abstract state, the reply and whether `lookupFunc` was called are those of `Lru.Get` on the old state; on success the key is the head with the returned value; a failed lookup, or a hit on the head, leaves the cache untouched |
| AutoCache.Cache.Fetch | autocache.go:33-47 | on a hit, returns the cached node with its value and changes nothing; on a miss, the reply is `lookupFunc(key)`; a failed lookup gives no node and changes nothing; a successful one gives a fresh unlinked node entered in `hash`, with `chopTail` set exactly when `count >= maxSize` and `count` incremented otherwise |
| AutoCache.Cache.Promote | autocache.go:59-97 | moving the node to the head (and chopping the tail when asked) restores the full invariant with the node as head and the relinked list and updated index as the new state |
| AutoCache.Cache.Relink | autocache.go:59-97 | after unlinking, pushing to the front and optionally chopping, the pointers form the relinked list, and `hash` lost exactly the old tail's key when the tail was chopped |
| AutoCache.Cache.Unlink | autocache.go:59-74 | taking the node out of the list leaves the list without it, correctly linked, and a node that was not in the list changes nothing |
| AutoCache.Cache.PushFront | autocache.go:77-89 | the node becomes the head of the list, and also its tail when the list was empty |
| AutoCache.Cache.ChopTail | autocache.go:91-97 | the last node is dropped from the list, its key is deleted from `hash`, and the node before it becomes the tail with a nil `next` |
| AutoCache.LinkedNoRepeat | autocache.go:17-22 | a list linked through `next` and `prev` holds no node twice |
| AutoCache.LinkedDistinct | autocache.go:17-22 | in a linked list all positions hold different nodes |
| AutoCache.Position | autocache.go:33 | the node `hash` holds for a key sits in the list and has that key |
| AutoCache.HeadStep | autocache.go:49-52 | a `Get` of the head's key is an abstract hit that leaves the state as it is, replies with the head's value and calls nothing |
| AutoCache.HitStep | autocache.go:59-89 | moving the hit node to the front is the abstract hit, and `hash` still indexes the list |
| AutoCache.MissStep | autocache.go:40-46 | putting a new node in front of a list that is not full, and into `hash`, is the abstract miss, and the index grows by one |
| AutoCache.EvictStep | autocache.go:91-97 | on a full cache, the new node in front and the old tail and its key dropped is the abstract eviction; the tail node leaves the list and the index keeps its size |
| AutoCache.PromoteIndexed | autocache.go:59-89 | moving a node to the front keeps the index and the node set, and the keys move as on an abstract hit |
| AutoCache.InsertIndexed | autocache.go:40-41 | a node with a new key put in front and into `hash` keeps the index, which grows by one |
| AutoCache.ChopIndexed | autocache.go:93-95 | dropping the last node and deleting its key keeps the index, which shrinks by one |
| AutoCache.EvictIndexed | autocache.go:91-97 | inserting in front and then dropping the tail keeps the index, its size, and removes the old tail from the list |
| AutoCache.RelinkIndexed | autocache.go:42-97 | in each of the three cases (hit, miss with room, miss on a full cache) the relinked list is indexed by the updated map, has as many nodes as keys, at most `maxSize` |
| AutoCache.RelinkStep | autocache.go:59-97 | in each of the three cases the relinked list and updated map are the abstract state after `Lru.Get`, the reply is the node's value, and the resolver was called exactly on a miss |
| Lru.Get | autocache.go:32-101 | one abstract call: the resolver is called exactly when the key is not cached, and when it fails its reply is returned and the state is unchanged |
| Lru.GetWellFormed | autocache.go:42-46 | every call keeps the keys distinct, order and map on the same keys, and at most `maxSize` of them; the cache never shrinks, and after success it holds the key |
| Lru.HitWellFormed | autocache.go:59-89 | a hit keeps the state well formed and the number of keys the same |
| Lru.EvictWellFormed | autocache.go:91-97 | an eviction keeps the state well formed |
| Lru.GetOrder | autocache.go:59-89 | after success the key is first, and with it taken out the new order is a prefix of the old order with it taken out: the other keys keep their relative order and only the least recently used can go |
| Lru.GetEvicts | autocache.go:91-97 | a successful miss on a full cache removes exactly the old least recently used key, never the inserted one, and the number of keys stays `maxSize` |
| Lru.GetInserts | autocache.go:40-46 | a successful miss on a cache that is not full adds the key, removes nothing, and grows the order by one |
| Lru.GetConsistent | autocache.go:33-47 | if every cached value is the resolver's answer for its key, that stays so, and the reply is exactly the resolver's answer |
| Lru.Run | autocache_test.go:22-25 | a sequence of calls has one reply per key and at most one resolver call per key |
| Lru.RunSnoc | autocache_test.go:22-25 | running the first `i + 1` calls is running the first `i` and then one more `Get` |
| Lru.Extend | autocache_test.go:22-25 | from the state and call count after `i` calls, call `i` gives the state and count after `i + 1` |
| Lru.RunWellFormed | autocache.go:32-101 | every state reached by a sequence of calls is well formed |
| Lru.RunTransparent | autocache.go:32-101 | from a consistent state, every reply of a sequence of calls is the resolver's answer for its key |
| Lru.RunAllHits | autocache.go:33-35 | when every requested key is cached, the resolver is never called and the cached keys and values stay the same |
| Lru.RunFills | autocache.go:35-46 | asking an empty cache for at most `maxSize` different keys that the resolver answers misses on each, calls the resolver once per key, and leaves exactly those keys cached, with nothing evicted |
| Lru.RoundTrip | autocache.go:33-35 | after filling an empty cache that way, asking again for any of those keys, in any order and any number of times, never calls the resolver and changes no cached value |
| Lru.LastAccess | autocache.go:32-101 | the position of the last request for a key in a request sequence: -1 exactly when the key was never requested, and otherwise a position that holds the key |
| Lru.RunRecency | autocache.go:59-97 | after any sequence of requests on an empty cache, the recency order lists the cached keys by their last request, most recent first: the head is the most recently requested key and the tail the least recently requested one still cached |
| Lru.LastIsLeastRecent | autocache.go:91-97 | in an order sorted by last request, the last key was requested longer ago than every other key in it |
| Lru.RunEvictsLeastRecent | autocache.go:91-97 | when a request misses on a full cache reached from empty, the key it evicts was cached, is gone afterwards, and was requested longer ago than every other cached key |
| AutoCacheTest.Lookup | autocache_test.go:7-19 | the test's resolver never fails and answers the dictionary's entry |
| AutoCacheTest.FirstMisses | autocache_test.go:22-25 | `et` and `oratio` miss on the empty cache and are fetched |
| AutoCacheTest.FirstHit | autocache_test.go:22-25 | the second `et` is a hit that moves it to the head without a call |
| AutoCacheTest.Fill | autocache_test.go:22-25 | `conviciis` misses and fills the cache to capacity 3 |
| AutoCacheTest.SecondHit | autocache_test.go:22-25 | the third `et` is a hit |
| AutoCacheTest.FirstEviction | autocache_test.go:22-25 | `est` misses on the full cache and evicts `oratio`, the least recently used |
| AutoCacheTest.SecondEviction | autocache_test.go:22-25 | the second `oratio` misses again and evicts `conviciis` |
| AutoCacheTest.FirstThree | autocache_test.go:22-25 | the first three calls reach their state after two resolver calls |
| AutoCacheTest.FirstFour | autocache_test.go:22-25 | the first four calls reach their state after three resolver calls |
| AutoCacheTest.FirstFive | autocache_test.go:22-25 | the first five calls reach their state after three resolver calls |
| AutoCacheTest.FirstSix | autocache_test.go:22-25 | the first six calls reach their state after four resolver calls |
| AutoCacheTest.AllSeven | autocache_test.go:22-25 | all seven calls end with `oratio`, `est`, `et` cached after five resolver calls |
| AutoCacheTest.Scenario | autocache_test.go:14-30 | the resolver is called exactly five times, the final recency order is `oratio`, `est`, `et`, and every reply is the dictionary's answer |

## Left out

- The mutex (autocache.go:14, 54-56, 99) is not modelled. `Get` is one atomic, sequential operation, so the unlocked reads and writes of `hash` and `count` and their races are outside the model.
- `lookupFunc` is a pure function value fixed at construction. A resolver with side effects, such as the test's closure that counts its calls, is modelled by the ghost flag `called` that `Cache.Get` returns and by `Trace.calls` in `Lru.Run`. Because the resolver is a function, it gives the same answer for a key every time. Two behaviours of a resolver whose answer changes are therefore not covered: a transient error followed by a later success for the same key, and a hit that serves a value the resolver would no longer give. The transparency lemmas `Lru.GetConsistent` and `Lru.RunTransparent` hold only for such a fixed resolver. The cache itself makes no such promise: it never asks the resolver again for a cached key.
- AutoCache.Cache.New: requires `maxSize >= 1`, which Go does not check. With `maxSize <= 0`, the first successful miss makes the new node both head and tail, then chops it: `tail` becomes nil and `c.tail.next = nil` panics (autocache.go:93-95). The model excludes that path rather than modelling the panic.
- `node.String`, `node.GoString` and `debugFullCache` (autocache.go:103-148) are diagnostic rendering, reached only from commented-out prints, and are not modelled.
- The test's `t.Log` output (autocache_test.go:23-24) is not modelled. The seven replies it logs are covered by `AutoCacheTest.Scenario`, which states each one.
- AutoCacheTest.Scenario: the scenario is proved on the abstract `Lru.Run`, not by a loop over the imperative `Cache`. It carries over to `Cache` because `AutoCache.Cache.Get` is proved to take exactly the abstract step each time.
- An evicted node stays in the ghost `Repr` of the cache. This enlarges the frame of later calls but not the state the invariant speaks about. Go's garbage collection of that node is not modelled.
- Go's `int` is 64-bit, but `count` and `maxSize` are unbounded here. `count` is only incremented while it is below `maxSize`, so it cannot overflow.
