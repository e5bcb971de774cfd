/** The package's test scenario: a cache of capacity 3 over a small
    dictionary, asked for seven words, of which five reach the resolver. */
module AutoCacheTest {
  import opened Lru

  /** The dictionary behind the test's resolver. */
  const Dictionary: map<string, string> :=
    map["et" := "et", "oratio" := "oratio", "conviciis" := "convicium", "est" := "sum"]

  /** The test's resolver: the dictionary entry, or the empty string for a
      word it lacks, and never an error. */
  function Lookup(key: string): (r: Reply)
    ensures r.err == None && (key in Dictionary ==> r.val == Dictionary[key])
  {
    Reply(if key in Dictionary then Dictionary[key] else "", None)
  }

  /** The words the test asks for, in order. */
  const Words: seq<string> := ["et", "oratio", "et", "conviciis", "et", "est", "oratio"]

  /** The states the scenario passes through. */
  const M1: map<string, string> := map["et" := "et"]
  const M2: map<string, string> := M1["oratio" := "oratio"]
  const M4: map<string, string> := M2["conviciis" := "convicium"]
  const M6: map<string, string> := map["et" := "et", "conviciis" := "convicium", "est" := "sum"]
  const States: seq<View> := [
    Empty,
    View(["et"], M1),
    View(["oratio", "et"], M2),
    View(["et", "oratio"], M2),
    View(["conviciis", "et", "oratio"], M4),
    View(["et", "conviciis", "oratio"], M4),
    View(["est", "et", "conviciis"], M6),
    View(["oratio", "est", "et"], M6["oratio" := "oratio"] - {"conviciis"})
  ]
  /** The resolver calls made so far, state by state. */
  const Calls: seq<nat> := [0, 1, 2, 2, 3, 3, 4, 5]

  /** `et` and `oratio` miss on the empty cache. */
  lemma FirstMisses()
    ensures Get(States[0], 3, Lookup, "et") == Outcome(States[1], Reply("et", None), true)
    ensures Get(States[1], 3, Lookup, "oratio") == Outcome(States[2], Reply("oratio", None), true)
  {
  }

  /** `et` hits and moves to the head. */
  lemma FirstHit()
    ensures Get(States[2], 3, Lookup, "et") == Outcome(States[3], Reply("et", None), false)
  {
    assert Without(["oratio", "et"], "et") == ["oratio"];
  }

  /** `conviciis` misses and fills the cache. */
  lemma Fill()
    ensures Get(States[3], 3, Lookup, "conviciis") == Outcome(States[4], Reply("convicium", None), true)
  {
  }

  /** `et` hits again. */
  lemma SecondHit()
    ensures Get(States[4], 3, Lookup, "et") == Outcome(States[5], Reply("et", None), false)
  {
    assert Without(["conviciis", "et", "oratio"], "et") == ["conviciis", "oratio"];
  }

  /** `est` misses on the full cache and evicts `oratio`, the least recently used. */
  lemma FirstEviction()
    ensures Get(States[5], 3, Lookup, "est") == Outcome(States[6], Reply("sum", None), true)
  {
    assert M4["est" := "sum"] - {"oratio"} == M6;
  }

  /** `oratio` misses again and evicts `conviciis`. */
  lemma SecondEviction()
    ensures Get(States[6], 3, Lookup, "oratio") == Outcome(States[7], Reply("oratio", None), true)
  {
  }

  /** The first three calls: two misses, then a hit on `et`. */
  lemma FirstThree()
    ensures Run(Empty, 3, Lookup, Words[..3]).view == States[3]
    ensures Run(Empty, 3, Lookup, Words[..3]).calls == Calls[3]
  {
    assert Words[..0] == [];
    FirstMisses();
    FirstHit();
    Extend(Empty, 3, Lookup, Words, 0, "et", States[0], 0);
    Extend(Empty, 3, Lookup, Words, 1, "oratio", States[1], 1);
    Extend(Empty, 3, Lookup, Words, 2, "et", States[2], 2);
  }

  /** The first four calls: `conviciis` fills the cache. */
  lemma FirstFour()
    ensures Run(Empty, 3, Lookup, Words[..4]).view == States[4]
    ensures Run(Empty, 3, Lookup, Words[..4]).calls == Calls[4]
  {
    FirstThree();
    Fill();
    Extend(Empty, 3, Lookup, Words, 3, "conviciis", States[3], 2);
  }

  /** The first five calls: `et` hits again. */
  lemma FirstFive()
    ensures Run(Empty, 3, Lookup, Words[..5]).view == States[5]
    ensures Run(Empty, 3, Lookup, Words[..5]).calls == Calls[5]
  {
    FirstFour();
    SecondHit();
    Extend(Empty, 3, Lookup, Words, 4, "et", States[4], 3);
  }

  /** The first six calls: `est` evicts `oratio`. */
  lemma FirstSix()
    ensures Run(Empty, 3, Lookup, Words[..6]).view == States[6]
    ensures Run(Empty, 3, Lookup, Words[..6]).calls == Calls[6]
  {
    FirstFive();
    FirstEviction();
    Extend(Empty, 3, Lookup, Words, 5, "est", States[5], 3);
  }

  /** All seven calls: `oratio` misses again and evicts `conviciis`. */
  lemma AllSeven()
    ensures Run(Empty, 3, Lookup, Words).view == States[7]
    ensures Run(Empty, 3, Lookup, Words).calls == Calls[7]
  {
    FirstSix();
    SecondEviction();
    Extend(Empty, 3, Lookup, Words, 6, "oratio", States[6], 4);
    assert Words[..7] == Words;
  }

  /** What the scenario does on the abstract model: the resolver is called
      five times, because `est` evicts `oratio`, which then misses again;
      every reply is the dictionary's answer; the final recency order is
      `oratio`, `est`, `et`. */
  lemma Scenario()
    ensures var t := Run(Empty, 3, Lookup, Words);
      && t.calls == 5
      && t.view.order == ["oratio", "est", "et"]
      && (forall i | 0 <= i < |Words| :: t.replies[i] == Lookup(Words[i]))
  {
    AllSeven();
    RunTransparent(Empty, 3, Lookup, Words);
  }
}
