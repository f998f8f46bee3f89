// Saying each sentence once, told without the memory that makes it fast: each sentence is held against
// every sentence kept before it (dedupe_sentences in src/hrmosaic/agent/outcome.py:795-844).
module OnceSaid {
  import Breadth
  import opened Blocks
  import opened Lists
  import opened Repetition
  import opened Sentences
  import opened Texts

  predicate NewBeside(key: SentenceKey, said: seq<string>, s: string) { forall t :: t in said ==> Unlike(key, s, t) }

  // The sentences that are new beside what has been said and beside the new ones in front of them.
  function News(key: SentenceKey, said: seq<string>, parts: seq<string>): seq<string> {
    if parts == [] then []
    else
      var n := |parts| - 1;
      var before := News(key, said, parts[..n]);
      if NewBeside(key, said + before, parts[n]) then before + [parts[n]] else before
  }

  // The others, in their order.
  function Again(key: SentenceKey, said: seq<string>, parts: seq<string>): seq<string> {
    if parts == [] then []
    else
      var n := |parts| - 1;
      var before := Again(key, said, parts[..n]);
      if NewBeside(key, said + News(key, said, parts[..n]), parts[n]) then before else before + [parts[n]]
  }

  // Every sentence kept so far, the blocks without their citations, and what was taken out, with the
  // index of the block it stood in. A block that has sentences, and nothing new, goes.
  datatype Told = Told(said: seq<string>, blocks: seq<Block>, removed: seq<(nat, string)>)

  function TellOnce(key: SentenceKey, blocks: seq<Block>): Told {
    if blocks == [] then Told([], [], [])
    else
      var n := |blocks| - 1;
      var b, told := blocks[n], TellOnce(key, blocks[..n]);
      var parts := SentencesOf(b.text);
      var news := News(key, told.said, parts);
      var item := Block(b.kind, if news == parts then b.text else Join(news), [], b.id, b.policyClaim);
      Told(told.said + news,
           if news == [] && parts != [] then told.blocks else told.blocks + [item],
           told.removed + Tagged(n, Again(key, told.said, parts)))
  }

  // ----- the memory knows what has been said -----

  ghost predicate Remembers(key: SentenceKey, seen: map<string, int>, said: seq<string>) {
    forall k :: k in seen <==> exists t :: t in said && (k == key(t) || k == Core(key(t)))
  }

  lemma HomelessIsNew(key: SentenceKey, seen: map<string, int>, said: seq<string>, s: string)
    requires Remembers(key, seen, said)
    ensures Home(seen, key(s)).None? <==> NewBeside(key, said, s)
  {
    if Home(seen, key(s)).None? {
      forall t | t in said ensures Unlike(key, s, t) {
        assert key(t) in seen && Core(key(t)) in seen;
      }
    } else {
      var k := if key(s) in seen then key(s) else Core(key(s));
      var t :| t in said && (k == key(t) || k == Core(key(t)));
      assert k in {key(s), Core(key(s))} && k in {key(t), Core(key(t))};
    }
  }

  lemma RememberOne(key: SentenceKey, seen: map<string, int>, said: seq<string>, here: int, s: string)
    requires Remembers(key, seen, said)
    ensures Remembers(key, seen[key(s) := here][Core(key(s)) := here], said + [s])
  {
  }

  lemma {:induction false} ReadTells(key: SentenceKey, parts: seq<string>, here: int, seen: map<string, int>,
                                     said: seq<string>)
    requires Remembers(key, seen, said)
    ensures var r, news := Read(key, parts, here, seen), News(key, said, parts);
            r.keep == news && r.repeats == Again(key, said, parts) && Remembers(key, r.seen, said + news)
  {
    if parts == [] {
      assert said + [] == said;
    } else {
      var n := |parts| - 1;
      var before, s := Read(key, parts[..n], here, seen), parts[n];
      ReadTells(key, parts[..n], here, seen, said);
      HomelessIsNew(key, before.seen, said + before.keep, s);
      RememberOne(key, before.seen, said + before.keep, here, s);
      assert (said + before.keep) + [s] == said + (before.keep + [s]);
    }
  }

  // ----- one block, all blocks -----

  lemma BlockTells(key: SentenceKey, s: Memory, said: seq<string>, index: nat, b: Block)
    requires Pointing(s) && Remembers(key, s.seen, said)
    ensures var r, parts := DedupeBlock(key, s, index, b), SentencesOf(b.text);
            var news := News(key, said, parts);
            var item := Block(b.kind, if news == parts then b.text else Join(news), [], b.id, b.policyClaim);
            && Remembers(key, r.seen, said + news)
            && r.removed == s.removed + Tagged(index, Again(key, said, parts))
            && Breadth.Bare(r.kept)
               == if news == [] && parts != [] then Breadth.Bare(s.kept) else Breadth.Bare(s.kept) + [item]
  {
    var parts := SentencesOf(b.text);
    var reading := Read(key, parts, |s.kept|, s.seen);
    ReadPoints(key, parts, |s.kept|, s.seen);
    ReadTells(key, parts, |s.kept|, s.seen, said);
    if |reading.keep| == |parts| {
      NothingRepeated(key, parts, |s.kept|, s.seen);
    }
    if reading.keep == [] && parts != [] {
      GivenIsBare(s.kept, Distinct(reading.homes), b.citations);
      assert said + [] == said;
    } else {
      BareSnoc(s.kept, if |reading.keep| != |parts| then b.(text := Join(reading.keep)) else b);
    }
  }

  lemma GivenIsBare(kept: seq<Block>, homes: seq<int>, citations: seq<string>)
    requires forall h :: h in homes ==> 0 <= h < |kept|
    ensures Breadth.Bare(GiveTo(kept, homes, citations)) == Breadth.Bare(kept)
  {
  }

  lemma BareSnoc(kept: seq<Block>, item: Block)
    ensures Breadth.Bare(kept + [item]) == Breadth.Bare(kept) + [item.(citations := [])]
  {
  }

  // The memory and its shortcuts change nothing: block for block and sentence for sentence the pass keeps
  // and takes out what the plain telling does.
  lemma {:induction false} DedupeTellsOnce(key: SentenceKey, blocks: seq<Block>)
    ensures var r, told := Deduped(key, blocks), TellOnce(key, blocks);
            Breadth.Bare(r.kept) == told.blocks && r.removed == told.removed && Remembers(key, r.seen, told.said)
  {
    if blocks != [] {
      var n := |blocks| - 1;
      DedupeTellsOnce(key, blocks[..n]);
      BlockTells(key, Deduped(key, blocks[..n]), TellOnce(key, blocks[..n]).said, n, blocks[n]);
    }
  }

  // The core is what stands behind the first colon and space, or the whole where there is none.
  lemma CoreExactly(front: string, rest: string)
    requires forall i: nat :: i < |front| ==> !OccursAt(front + ": ", ": ", i)
    ensures Core(front + ": " + rest) == rest
    ensures !Contains(rest, ": ") ==> Core(rest) == rest
  {
    var k := front + ": " + rest;
    forall i: nat | i < |front| ensures !OccursAt(k, ": ", i) {
      OccursAtAppend(front + ": ", rest, ": ", i);
    }
    assert k[|front|..|front| + 2] == ": " && k[|front| + 2..] == rest;
    FindUnique(k, ": ", 0, |front|);
  }
}
