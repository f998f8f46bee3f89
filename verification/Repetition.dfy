// Sentences an answer has said before are dropped, and their citations move to where it said them
// (dedupe_sentences in src/hrmosaic/agent/outcome.py).
module Repetition {
  import opened Texts
  import opened Sentences
  import opened Blocks
  import opened Lists
  import Breadth

  // A sentence in the normal form two sentences are compared in.
  type SentenceKey = string -> string

  ghost predicate KeyIgnoresEdges(key: SentenceKey) { forall s {:trigger Strip(s)} :: key(s) == key(Strip(s)) }

  // The clause after a lede: everything behind the first colon and space.
  function Core(k: string): string {
    var i := Find(k, ": ", 0);
    if i < 0 then k else k[i + 2..]
  }

  // The kept block that already said this sentence, by its whole key or by its core.
  function Home(seen: map<string, int>, k: string): Option<int> {
    if k in seen then Some(seen[k])
    else if Core(k) in seen then Some(seen[Core(k)])
    else None
  }

  // The reading of one block's sentences: what is remembered, what is kept, and for each repeat
  // the block that said it first.
  datatype Reading = Reading(seen: map<string, int>, keep: seq<string>, repeats: seq<string>, homes: seq<int>)

  function ReadOne(key: SentenceKey, r: Reading, here: int, s: string): Reading {
    var k := key(s);
    match Home(r.seen, k)
    case Some(home) => r.(repeats := r.repeats + [s], homes := r.homes + [home])
    case None => r.(seen := r.seen[k := here][Core(k) := here], keep := r.keep + [s])
  }

  function Read(key: SentenceKey, parts: seq<string>, here: int, seen: map<string, int>): (r: Reading)
    ensures |r.keep| + |r.repeats| == |parts| && |r.homes| == |r.repeats|
  {
    if parts == [] then Reading(seen, [], [], [])
    else ReadOne(key, Read(key, parts[..|parts| - 1], here, seen), here, parts[|parts| - 1])
  }

  // The citations of a block that was nothing but repeats go to every block that said one first.
  function GiveTo(kept: seq<Block>, homes: seq<int>, citations: seq<string>): (r: seq<Block>)
    requires forall h :: h in homes ==> 0 <= h < |kept|
    ensures |r| == |kept|
    ensures forall j :: 0 <= j < |kept| ==>
              && r[j] == kept[j].(citations := r[j].citations)
              && forall c :: c in r[j].citations <==> c in kept[j].citations || (j in homes && c in citations)
  {
    if homes == [] then kept
    else
      var rest := homes[..|homes| - 1];
      assert forall h :: h in rest ==> h in homes;
      var before := GiveTo(kept, rest, citations);
      var h := homes[|homes| - 1];
      assert h in homes;
      before[h := before[h].(citations := Distinct(before[h].citations + citations))]
  }

  datatype Memory = Memory(kept: seq<Block>, seen: map<string, int>, removed: seq<(nat, string)>)

  // Memory points at kept blocks, and at ones that really say what is remembered of them.
  ghost predicate Mentions(key: SentenceKey, b: Block, k: string) {
    exists s :: s in SentencesOf(b.text) && (k == key(s) || k == Core(key(s)))
  }

  predicate Pointing(s: Memory) { forall k :: k in s.seen ==> 0 <= s.seen[k] < |s.kept| }

  function Tagged(index: nat, parts: seq<string>): seq<(nat, string)> {
    seq(|parts|, i requires 0 <= i < |parts| => (index, parts[i]))
  }

  function DedupeBlock(key: SentenceKey, s: Memory, index: nat, block: Block): (r: Memory)
    requires Pointing(s)
    ensures Pointing(r)
  {
    var parts := SentencesOf(block.text);
    var reading := Read(key, parts, |s.kept|, s.seen);
    ReadPoints(key, parts, |s.kept|, s.seen);
    var removed := s.removed + Tagged(index, reading.repeats);
    if reading.keep == [] && parts != [] then
      Memory(GiveTo(s.kept, Distinct(reading.homes), block.citations), reading.seen, removed)
    else
      var item := if |reading.keep| != |parts| then block.(text := Join(reading.keep)) else block;
      Memory(s.kept + [item], reading.seen, removed)
  }

  lemma {:induction false} ReadPoints(key: SentenceKey, parts: seq<string>, here: int, seen: map<string, int>)
    requires 0 <= here && forall k :: k in seen ==> 0 <= seen[k] < here
    ensures var r := Read(key, parts, here, seen);
            && (forall k :: k in r.seen ==> 0 <= r.seen[k] <= here)
            && (forall h :: h in r.homes ==> 0 <= h <= here)
            && (r.keep == [] ==> r.seen == seen && forall h :: h in r.homes ==> 0 <= h < here)
  {
    if parts != [] {
      ReadPoints(key, parts[..|parts| - 1], here, seen);
    }
  }

  function Deduped(key: SentenceKey, blocks: seq<Block>): (r: Memory)
    ensures Pointing(r)
  {
    if blocks == [] then Memory([], map[], [])
    else DedupeBlock(key, Deduped(key, blocks[..|blocks| - 1]), |blocks| - 1, blocks[|blocks| - 1])
  }

  // The blocks that still say something new, and each dropped sentence with the index of its block.
  method DedupeSentences(key: SentenceKey, blocks: seq<Block>) returns (kept: seq<Block>, removed: seq<(nat, string)>)
    ensures kept == Deduped(key, blocks).kept && removed == Deduped(key, blocks).removed
  {
    var seen: map<string, int> := map[];
    kept, removed := [], [];
    for n := 0 to |blocks|
      invariant Memory(kept, seen, removed) == Deduped(key, blocks[..n])
    {
      assert blocks[..n + 1][..n] == blocks[..n];
      var item := blocks[n];
      var parts := SentencesOf(item.text);
      ReadPoints(key, parts, |kept|, seen);
      var reading := ReadSentences(key, parts, |kept|, seen);
      seen := reading.seen;
      removed := removed + Tagged(n, reading.repeats);
      if reading.keep == [] && parts != [] {
        kept := GiveTo(kept, Distinct(reading.homes), item.citations);
        continue;
      }
      if |reading.keep| != |parts| {
        item := item.(text := Join(reading.keep));
      }
      kept := kept + [item];
    }
    assert blocks[..|blocks|] == blocks;
  }

  method ReadSentences(key: SentenceKey, parts: seq<string>, here: int, remembered: map<string, int>)
    returns (reading: Reading)
    ensures reading == Read(key, parts, here, remembered)
  {
    var seen: map<string, int> := remembered;
    var keep: seq<string>, repeats: seq<string>, homes: seq<int> := [], [], [];
    for n := 0 to |parts|
      invariant Reading(seen, keep, repeats, homes) == Read(key, parts[..n], here, remembered)
    {
      assert parts[..n + 1][..n] == parts[..n];
      var sentence := parts[n];
      var k := key(sentence);
      var home := Home(seen, k);
      if home.Some? {
        repeats := repeats + [sentence];
        homes := homes + [home.value];
        continue;
      }
      seen := seen[k := here][Core(k) := here];
      keep := keep + [sentence];
    }
    assert parts[..|parts|] == parts;
    return Reading(seen, keep, repeats, homes);
  }

  // ----- idempotence -----

  lemma {:induction false} ReadKeepsPieces(key: SentenceKey, parts: seq<string>, here: int, seen: map<string, int>)
    requires Pieces(parts)
    ensures var keep := Read(key, parts, here, seen).keep;
            Pieces(keep) && forall s :: s in keep ==> s in parts
  {
    if parts != [] {
      var n := |parts| - 1;
      var before := Read(key, parts[..n], here, seen).keep;
      ReadKeepsPieces(key, parts[..n], here, seen);
      forall s | s in before ensures EndsSentence(s) && n > 0 {
        var i :| 0 <= i < n && parts[..n][i] == s;
      }
      PiecesSnoc(before, parts[n]);
    }
  }

  lemma PiecesSnoc(parts: seq<string>, last: string)
    requires Pieces(parts) && Strip(last) != "" && Unbroken(last)
    requires parts != [] ==> StartsSentence(last) && EndsSentence(parts[|parts| - 1])
    ensures Pieces(parts + [last])
  {
  }

  // Read again, what was kept is kept, and the same is remembered of it.
  lemma {:induction false} ReadAgain(key: SentenceKey, parts: seq<string>, here: int, seen: map<string, int>)
    requires KeyIgnoresEdges(key)
    ensures var r := Read(key, parts, here, seen);
            Read(key, Stripped(r.keep), here, seen) == Reading(r.seen, Stripped(r.keep), [], [])
  {
    if parts != [] {
      var n := |parts| - 1;
      var before := Read(key, parts[..n], here, seen);
      ReadAgain(key, parts[..n], here, seen);
      if Home(before.seen, key(parts[n])).None? {
        StrippedSnoc(before.keep, parts[n]);
        assert key(parts[n]) == key(Strip(parts[n]));
      }
    }
  }

  lemma StrippedSnoc(kept: seq<string>, last: string)
    ensures var all := Stripped(kept + [last]);
            && all == Stripped(kept) + [Strip(last)] && |all| == |kept| + 1
            && all[..|all| - 1] == Stripped(kept) && all[|kept|] == Strip(last)
  {
  }

  lemma {:induction false} NothingRepeated(key: SentenceKey, parts: seq<string>, here: int, seen: map<string, int>)
    requires |Read(key, parts, here, seen).keep| == |parts|
    ensures Read(key, parts, here, seen).keep == parts
  {
    if parts != [] {
      var n := |parts| - 1;
      NothingRepeated(key, parts[..n], here, seen);
      assert parts == parts[..n] + [parts[n]];
    }
  }

  // The sentences of each block.
  function Hearing(blocks: seq<Block>): (r: seq<seq<string>>)
    ensures |r| == |blocks| && forall i :: 0 <= i < |blocks| ==> r[i] == SentencesOf(blocks[i].text)
  {
    seq(|blocks|, i requires 0 <= i < |blocks| => SentencesOf(blocks[i].text))
  }

  // What is remembered after reading lists of sentences none of which repeats anything; None if one does.
  function Unrepeated(key: SentenceKey, heard: seq<seq<string>>): Option<map<string, int>> {
    if heard == [] then Some(map[])
    else
      var n := |heard| - 1;
      match Unrepeated(key, heard[..n])
      case None => None
      case Some(seen) =>
        var r := Read(key, heard[n], n, seen);
        if r.keep == heard[n] then Some(r.seen) else None
  }

  // The sentences of a block after it has been read.
  lemma ReadText(key: SentenceKey, text: string, here: int, seen: map<string, int>)
    requires KeyIgnoresEdges(key)
    ensures var parts := SentencesOf(text);
            var r := Read(key, parts, here, seen);
            var after := SentencesOf(if |r.keep| != |parts| then Join(r.keep) else text);
            Read(key, after, here, seen).keep == after && Read(key, after, here, seen).seen == r.seen
  {
    var parts := SentencesOf(text);
    var r := Read(key, parts, here, seen);
    if |r.keep| != |parts| {
      SentencesArePieces(text);
      ReadKeepsPieces(key, parts, here, seen);
      RejoinPieces(r.keep);
      ReadAgain(key, parts, here, seen);
    } else {
      NothingRepeated(key, parts, here, seen);
    }
  }

  // The blocks kept so far repeat nothing, and what is remembered is what they say.
  lemma {:induction false} KeptIsUnrepeated(key: SentenceKey, blocks: seq<Block>)
    requires KeyIgnoresEdges(key)
    ensures Unrepeated(key, Hearing(Deduped(key, blocks).kept)) == Some(Deduped(key, blocks).seen)
  {
    if blocks != [] {
      var n := |blocks| - 1;
      KeptIsUnrepeated(key, blocks[..n]);
      DedupeBlockUnrepeated(key, Deduped(key, blocks[..n]), n, blocks[n]);
    }
  }

  lemma DedupeBlockUnrepeated(key: SentenceKey, s: Memory, index: nat, block: Block)
    requires KeyIgnoresEdges(key) && Pointing(s) && Unrepeated(key, Hearing(s.kept)) == Some(s.seen)
    ensures var r := DedupeBlock(key, s, index, block); Unrepeated(key, Hearing(r.kept)) == Some(r.seen)
  {
    var r := DedupeBlock(key, s, index, block);
    var parts := SentencesOf(block.text);
    var reading := Read(key, parts, |s.kept|, s.seen);
    ReadPoints(key, parts, |s.kept|, s.seen);
    if reading.keep == [] && parts != [] {
      assert Hearing(r.kept) == Hearing(s.kept);
    } else {
      var item := if |reading.keep| != |parts| then block.(text := Join(reading.keep)) else block;
      ReadText(key, block.text, |s.kept|, s.seen);
      UnrepeatedAppend(key, Hearing(s.kept), s.seen, SentencesOf(item.text));
      HearingAppend(s.kept, item);
    }
  }

  lemma UnrepeatedAppend(key: SentenceKey, heard: seq<seq<string>>, seen: map<string, int>, parts: seq<string>)
    requires Unrepeated(key, heard) == Some(seen) && Read(key, parts, |heard|, seen).keep == parts
    ensures Unrepeated(key, heard + [parts]) == Some(Read(key, parts, |heard|, seen).seen)
  {
    assert (heard + [parts])[..|heard|] == heard;
  }

  lemma HearingAppend(blocks: seq<Block>, item: Block)
    ensures Hearing(blocks + [item]) == Hearing(blocks) + [SentencesOf(item.text)]
  {
  }

  // A block that repeats nothing is appended as it is.
  lemma FreshBlockIsKept(key: SentenceKey, s: Memory, index: nat, block: Block)
    requires Pointing(s)
    requires Read(key, SentencesOf(block.text), |s.kept|, s.seen).keep == SentencesOf(block.text)
    ensures DedupeBlock(key, s, index, block)
            == Memory(s.kept + [block], Read(key, SentencesOf(block.text), |s.kept|, s.seen).seen, s.removed)
  {
    var r := Read(key, SentencesOf(block.text), |s.kept|, s.seen);
    assert r.repeats == [];
    assert s.removed + Tagged(index, r.repeats) == s.removed;
  }

  lemma {:induction false} UnrepeatedIsKept(key: SentenceKey, blocks: seq<Block>)
    requires Unrepeated(key, Hearing(blocks)).Some?
    ensures Deduped(key, blocks) == Memory(blocks, Unrepeated(key, Hearing(blocks)).value, [])
  {
    if blocks != [] {
      var n := |blocks| - 1;
      var before := blocks[..n];
      assert Hearing(blocks)[..n] == Hearing(before);
      UnrepeatedIsKept(key, before);
      FreshBlockIsKept(key, Memory(before, Unrepeated(key, Hearing(before)).value, []), n, blocks[n]);
      LastBlock(blocks);
    }
  }

  // Saying each sentence once is idempotent.
  lemma DedupeIdempotent(key: SentenceKey, blocks: seq<Block>)
    requires KeyIgnoresEdges(key)
    ensures var once := Deduped(key, blocks).kept;
            Deduped(key, once).kept == once && Deduped(key, once).removed == []
  {
    KeptIsUnrepeated(key, blocks);
    UnrepeatedIsKept(key, Deduped(key, blocks).kept);
  }

  // ----- each sentence once -----

  lemma {:induction false} ReadCovers(key: SentenceKey, parts: seq<string>, here: int, seen: map<string, int>)
    ensures var r := Read(key, parts, here, seen);
            && seen.Keys <= r.seen.Keys
            && forall s :: s in r.keep ==>
                 && key(s) in r.seen && Core(key(s)) in r.seen
                 && key(s) !in seen && Core(key(s)) !in seen
  {
    if parts != [] {
      ReadCovers(key, parts[..|parts| - 1], here, seen);
    }
  }

  lemma {:induction false} UnrepeatedRemembers(key: SentenceKey, heard: seq<seq<string>>, i: nat, a: string)
    requires Unrepeated(key, heard).Some? && i < |heard| && a in heard[i]
    ensures key(a) in Unrepeated(key, heard).value && Core(key(a)) in Unrepeated(key, heard).value
  {
    var n := |heard| - 1;
    ReadCovers(key, heard[n], n, Unrepeated(key, heard[..n]).value);
    if i < n {
      UnrepeatedRemembers(key, heard[..n], i, a);
    }
  }

  // Two sentences in the normal form and its core have nothing in common.
  predicate Unlike(key: SentenceKey, a: string, b: string) {
    {key(a), Core(key(a))} !! {key(b), Core(key(b))}
  }

  lemma {:induction false} UnrepeatedIsUnlike(key: SentenceKey, heard: seq<seq<string>>, i: nat, j: nat,
                                                    a: string, b: string)
    requires Unrepeated(key, heard).Some? && i < j < |heard| && a in heard[i] && b in heard[j]
    ensures Unlike(key, a, b)
  {
    var n := |heard| - 1;
    if j < n {
      UnrepeatedIsUnlike(key, heard[..n], i, j, a, b);
    } else {
      UnrepeatedRemembers(key, heard[..n], i, a);
      NewIsUnlike(key, heard[n], n, Unrepeated(key, heard[..n]).value, a, b);
    }
  }

  // A sentence that is kept is unlike every sentence remembered before it.
  lemma NewIsUnlike(key: SentenceKey, parts: seq<string>, here: int, seen: map<string, int>, a: string, b: string)
    requires key(a) in seen && Core(key(a)) in seen && b in Read(key, parts, here, seen).keep
    ensures Unlike(key, a, b)
  {
    ReadCovers(key, parts, here, seen);
  }

  // The sentences kept of one block are unlike one another.
  lemma {:induction false} KeptAreUnlike(key: SentenceKey, parts: seq<string>, here: int, seen: map<string, int>,
                                               p: nat, q: nat)
    requires p < q < |Read(key, parts, here, seen).keep|
    ensures var keep := Read(key, parts, here, seen).keep; Unlike(key, keep[p], keep[q])
  {
    var init := parts[..|parts| - 1];
    var before, keep := Read(key, init, here, seen), Read(key, parts, here, seen).keep;
    if q < |before.keep| {
      KeptAreUnlike(key, init, here, seen, p, q);
    } else {
      ReadCovers(key, init, here, seen);
      assert before.keep[p] in before.keep && keep[p] == before.keep[p];
    }
  }

  lemma {:induction false} UnrepeatedWithin(key: SentenceKey, heard: seq<seq<string>>, i: nat, p: nat, q: nat)
    requires Unrepeated(key, heard).Some? && i < |heard| && p < q < |heard[i]|
    ensures Unlike(key, heard[i][p], heard[i][q])
  {
    var n := |heard| - 1;
    if i < n {
      UnrepeatedWithin(key, heard[..n], i, p, q);
    } else {
      KeptAreUnlike(key, heard[n], n, Unrepeated(key, heard[..n]).value, p, q);
    }
  }

  // No sentence of the result says what an earlier one says, whole or behind a lede, in its own block
  // or in another.
  lemma EachSentenceOnce(key: SentenceKey, blocks: seq<Block>, i: nat, p: nat, j: nat, q: nat)
    requires KeyIgnoresEdges(key)
    requires i < |Deduped(key, blocks).kept| && p < |SentencesOf(Deduped(key, blocks).kept[i].text)|
    requires j < |Deduped(key, blocks).kept| && q < |SentencesOf(Deduped(key, blocks).kept[j].text)|
    requires i < j || (i == j && p < q)
    ensures var kept := Deduped(key, blocks).kept;
            Unlike(key, SentencesOf(kept[i].text)[p], SentencesOf(kept[j].text)[q])
  {
    var kept := Deduped(key, blocks).kept;
    KeptIsUnrepeated(key, blocks);
    if i < j {
      UnrepeatedIsUnlike(key, Hearing(kept), i, j, SentencesOf(kept[i].text)[p], SentencesOf(kept[j].text)[q]);
    } else {
      UnrepeatedWithin(key, Hearing(kept), i, p, q);
    }
  }

  // ----- no citation is lost -----

  // Two blocks that share a sentence, whole or behind a lede, or are the same text.
  ghost predicate SayTheSame(key: SentenceKey, a: Block, b: Block) {
    a.text == b.text || exists k :: Mentions(key, a, k) && Mentions(key, b, k)
  }

  ghost function Saying(key: SentenceKey): Sameness { (a: Block, b: Block) => SayTheSame(key, a, b) }

  // Whatever is remembered, the block it points at says.
  ghost predicate Truthful(key: SentenceKey, s: Memory) {
    forall k :: k in s.seen ==> 0 <= s.seen[k] < |s.kept| && Mentions(key, s.kept[s.seen[k]], k)
  }

  lemma {:induction false} ReadRemembers(key: SentenceKey, parts: seq<string>, here: int, seen: map<string, int>)
    ensures var r := Read(key, parts, here, seen);
            && (forall k :: k in r.seen ==>
                  (k in seen && r.seen[k] == seen[k]) ||
                  (r.seen[k] == here && exists s :: s in r.keep && (k == key(s) || k == Core(key(s)))))
  {
    if parts != [] {
      ReadRemembers(key, parts[..|parts| - 1], here, seen);
    }
  }

  // A home is where a sentence of the block is remembered from.
  lemma {:induction false} ReadHomes(key: SentenceKey, parts: seq<string>, here: int, seen: map<string, int>)
    requires Read(key, parts, here, seen).keep == []
    ensures Read(key, parts, here, seen).seen == seen
    ensures forall h :: h in Read(key, parts, here, seen).homes ==>
              exists s, k :: s in parts && (k == key(s) || k == Core(key(s))) && k in seen && seen[k] == h
  {
    if parts != [] {
      var n := |parts| - 1;
      var before := Read(key, parts[..n], here, seen);
      ReadHomes(key, parts[..n], here, seen);
      forall h | h in Read(key, parts, here, seen).homes
        ensures exists s, k :: s in parts && (k == key(s) || k == Core(key(s))) && k in seen && seen[k] == h
      {
        if h in before.homes {
          var s, k :| s in parts[..n] && (k == key(s) || k == Core(key(s))) && k in seen && seen[k] == h;
          assert s in parts;
        } else {
          var s := parts[n];
          var k := if key(s) in seen then key(s) else Core(key(s));
          assert s in parts && k in seen && seen[k] == h;
        }
      }
    }
  }

  // The sentences kept of a block are said by what is left of it.
  lemma KeptAreMentioned(key: SentenceKey, text: string, here: int, seen: map<string, int>)
    requires KeyIgnoresEdges(key)
    ensures var parts := SentencesOf(text);
            var r := Read(key, parts, here, seen);
            var after := SentencesOf(if |r.keep| != |parts| then Join(r.keep) else text);
            forall s :: s in r.keep ==> s in parts && exists s' :: s' in after && key(s') == key(s)
  {
    var parts := SentencesOf(text);
    var r := Read(key, parts, here, seen);
    SentencesArePieces(text);
    ReadKeepsPieces(key, parts, here, seen);
    if |r.keep| != |parts| {
      RejoinPieces(r.keep);
      forall s | s in r.keep ensures exists s' :: s' in Stripped(r.keep) && key(s') == key(s) {
        var i :| 0 <= i < |r.keep| && r.keep[i] == s;
        assert Stripped(r.keep)[i] == Strip(s) && key(Strip(s)) == key(s);
      }
    } else {
      NothingRepeated(key, parts, here, seen);
    }
  }

  lemma {:induction false} MemoryIsTruthful(key: SentenceKey, blocks: seq<Block>)
    requires KeyIgnoresEdges(key)
    ensures Truthful(key, Deduped(key, blocks))
  {
    if blocks != [] {
      var n := |blocks| - 1;
      var s := Deduped(key, blocks[..n]);
      MemoryIsTruthful(key, blocks[..n]);
      DedupeBlockTruthful(key, s, n, blocks[n]);
    }
  }

  // Mentioning is a matter of the text alone.
  lemma SameTextMentions(key: SentenceKey, a: Block, b: Block)
    requires a.text == b.text
    ensures forall k :: Mentions(key, a, k) <==> Mentions(key, b, k)
  {
  }

  lemma DedupeBlockTruthful(key: SentenceKey, s: Memory, index: nat, block: Block)
    requires KeyIgnoresEdges(key) && Pointing(s) && Truthful(key, s)
    ensures Truthful(key, DedupeBlock(key, s, index, block))
  {
    var r := DedupeBlock(key, s, index, block);
    forall k | k in r.seen ensures Mentions(key, r.kept[r.seen[k]], k) {
      if k in s.seen && r.seen[k] == s.seen[k] {
        DedupeBlockKeeps(key, s, index, block);
        SameTextMentions(key, s.kept[s.seen[k]], r.kept[s.seen[k]]);
      } else {
        NewMemoryIsTruthful(key, s, index, block, k);
      }
    }
  }

  lemma NewMemoryIsTruthful(key: SentenceKey, s: Memory, index: nat, block: Block, k: string)
    requires KeyIgnoresEdges(key) && Pointing(s)
    requires var r := DedupeBlock(key, s, index, block); k in r.seen && !(k in s.seen && r.seen[k] == s.seen[k])
    ensures var r := DedupeBlock(key, s, index, block); Mentions(key, r.kept[r.seen[k]], k)
  {
    var parts := SentencesOf(block.text);
    var reading := Read(key, parts, |s.kept|, s.seen);
    ReadRemembers(key, parts, |s.kept|, s.seen);
    var said :| said in reading.keep && (k == key(said) || k == Core(key(said)));
    KeptAreMentioned(key, block.text, |s.kept|, s.seen);
  }

  // Where the citations of one block go: to a block that says one of its sentences.
  lemma DedupeBlockHouses(key: SentenceKey, s: Memory, index: nat, block: Block) returns (j: int)
    requires KeyIgnoresEdges(key) && Pointing(s) && Truthful(key, s)
    ensures var r := DedupeBlock(key, s, index, block);
            && 0 <= j < |r.kept| && SayTheSame(key, block, r.kept[j])
            && forall c :: c in block.citations ==> c in r.kept[j].citations
  {
    var parts := SentencesOf(block.text);
    var reading := Read(key, parts, |s.kept|, s.seen);
    if reading.keep == [] && parts != [] {
      j := reading.homes[0];
      assert j in reading.homes;
      HomeSaysTheSame(key, s, block, j);
      DedupeBlockGives(key, s, index, block, j);
    } else {
      j := |s.kept|;
      KeptSaysTheSame(key, s, block);
    }
  }

  lemma DedupeBlockGives(key: SentenceKey, s: Memory, index: nat, block: Block, h: int)
    requires Pointing(s) && 0 <= h < |s.kept|
    requires var parts := SentencesOf(block.text);
             var reading := Read(key, parts, |s.kept|, s.seen);
             reading.keep == [] && parts != [] && h in reading.homes
    ensures var r := DedupeBlock(key, s, index, block);
            && |r.kept| == |s.kept| && r.kept[h].text == s.kept[h].text
            && (forall k :: Mentions(key, s.kept[h], k) <==> Mentions(key, r.kept[h], k))
            && forall c :: c in block.citations ==> c in r.kept[h].citations
  {
    ReadPoints(key, SentencesOf(block.text), |s.kept|, s.seen);
    SameTextMentions(key, s.kept[h], DedupeBlock(key, s, index, block).kept[h]);
  }

  lemma HomeSaysTheSame(key: SentenceKey, s: Memory, block: Block, h: int)
    requires Pointing(s) && Truthful(key, s)
    requires var reading := Read(key, SentencesOf(block.text), |s.kept|, s.seen);
             reading.keep == [] && h in reading.homes
    ensures 0 <= h < |s.kept|
    ensures exists k :: Mentions(key, block, k) && Mentions(key, s.kept[h], k)
  {
    ReadHomes(key, SentencesOf(block.text), |s.kept|, s.seen);
    var said, k :| && said in SentencesOf(block.text) && (k == key(said) || k == Core(key(said)))
                   && k in s.seen && s.seen[k] == h;
    assert Mentions(key, block, k) && Mentions(key, s.kept[h], k);
  }

  lemma KeptSaysTheSame(key: SentenceKey, s: Memory, block: Block)
    requires KeyIgnoresEdges(key)
    requires var parts := SentencesOf(block.text);
             !(Read(key, parts, |s.kept|, s.seen).keep == [] && parts != [])
    ensures var parts := SentencesOf(block.text);
            var keep := Read(key, parts, |s.kept|, s.seen).keep;
            var item := if |keep| != |parts| then block.(text := Join(keep)) else block;
            SayTheSame(key, block, item) && SayTheSame(key, item, block)
  {
    var parts := SentencesOf(block.text);
    var keep := Read(key, parts, |s.kept|, s.seen).keep;
    if |keep| != |parts| {
      KeptAreMentioned(key, block.text, |s.kept|, s.seen);
      assert keep[0] in keep;
      var item := block.(text := Join(keep));
      assert Mentions(key, block, key(keep[0])) && Mentions(key, item, key(keep[0]));
    }
  }

  lemma StillHoused(key: SentenceKey, s: Memory, index: nat, block: Block, a: Block, j: nat, c: string)
    requires Pointing(s) && j < |s.kept| && c in s.kept[j].citations && SayTheSame(key, a, s.kept[j])
    ensures var r := DedupeBlock(key, s, index, block);
            j < |r.kept| && c in r.kept[j].citations && SayTheSame(key, a, r.kept[j])
  {
    DedupeBlockKeeps(key, s, index, block);
    SameTextMentions(key, s.kept[j], DedupeBlock(key, s, index, block).kept[j]);
  }

  // A citation dropped with its block survives on a block that says one of its sentences.
  lemma {:induction false} DedupeLosesNone(key: SentenceKey, blocks: seq<Block>)
    requires KeyIgnoresEdges(key)
    ensures Housed(Saying(key), blocks, Deduped(key, blocks).kept)
  {
    if blocks != [] {
      var n := |blocks| - 1;
      DedupeLosesNone(key, blocks[..n]);
      MemoryIsTruthful(key, blocks[..n]);
      DedupeBlockHoused(key, Deduped(key, blocks[..n]), blocks);
    }
  }

  lemma DedupeBlockHoused(key: SentenceKey, s: Memory, blocks: seq<Block>)
    requires KeyIgnoresEdges(key) && Pointing(s) && Truthful(key, s) && blocks != []
    requires Housed(Saying(key), blocks[..|blocks| - 1], s.kept)
    ensures Housed(Saying(key), blocks, DedupeBlock(key, s, |blocks| - 1, blocks[|blocks| - 1]).kept)
  {
    var n := |blocks| - 1;
    var to := DedupeBlock(key, s, n, blocks[n]).kept;
    var home: int := DedupeBlockHouses(key, s, n, blocks[n]);
    forall i, c | 0 <= i < |blocks| && c in blocks[i].citations
      ensures exists j :: 0 <= j < |to| && c in to[j].citations && Saying(key)(blocks[i], to[j])
    {
      if i < n {
        var j := HousedAt(Saying(key), blocks[..n], s.kept, i, c);
        StillHoused(key, s, n, blocks[n], blocks[i], j, c);
        assert c in to[j].citations && Saying(key)(blocks[i], to[j]);
      } else {
        assert c in to[home].citations && Saying(key)(blocks[i], to[home]);
      }
    }
  }

  lemma DedupeBlockKeeps(key: SentenceKey, s: Memory, index: nat, block: Block)
    requires Pointing(s)
    ensures var r := DedupeBlock(key, s, index, block);
            && |s.kept| <= |r.kept|
            && forall j :: 0 <= j < |s.kept| ==>
                 && r.kept[j].text == s.kept[j].text
                 && forall c :: c in s.kept[j].citations ==> c in r.kept[j].citations
  {
    ReadPoints(key, SentencesOf(block.text), |s.kept|, s.seen);
  }

  // A citation found on a kept block came from a block that shares a sentence with it.
  lemma {:induction false} DedupeInventsNone(key: SentenceKey, blocks: seq<Block>)
    requires KeyIgnoresEdges(key)
    ensures Housed(Saying(key), Deduped(key, blocks).kept, blocks)
  {
    if blocks != [] {
      var n := |blocks| - 1;
      var s, r := Deduped(key, blocks[..n]), Deduped(key, blocks);
      DedupeInventsNone(key, blocks[..n]);
      MemoryIsTruthful(key, blocks[..n]);
      forall j, c | 0 <= j < |r.kept| && c in r.kept[j].citations
        ensures exists i :: 0 <= i < |blocks| && c in blocks[i].citations && Saying(key)(r.kept[j], blocks[i])
      {
        var i := CitationCame(key, s, blocks, j, c);
      }
    }
  }

  lemma CitationCame(key: SentenceKey, s: Memory, blocks: seq<Block>, j: nat, c: string) returns (i: nat)
    requires KeyIgnoresEdges(key) && Pointing(s) && Truthful(key, s)
    requires blocks != [] && Housed(Saying(key), s.kept, blocks[..|blocks| - 1])
    requires var r := DedupeBlock(key, s, |blocks| - 1, blocks[|blocks| - 1]);
             j < |r.kept| && c in r.kept[j].citations
    ensures i < |blocks| && c in blocks[i].citations
    ensures Saying(key)(DedupeBlock(key, s, |blocks| - 1, blocks[|blocks| - 1]).kept[j], blocks[i])
  {
    var n := |blocks| - 1;
    if j < |s.kept| && c in s.kept[j].citations {
      i := HousedAt(Saying(key), s.kept, blocks[..n], j, c);
      DedupeBlockKeeps(key, s, n, blocks[n]);
      SameTextSays(key, s.kept[j], DedupeBlock(key, s, n, blocks[n]).kept[j], blocks[i]);
    } else {
      i := n;
      DedupeBlockGains(key, s, n, blocks[n], j, c);
    }
  }

  lemma SameTextSays(key: SentenceKey, a: Block, again: Block, b: Block)
    requires again.text == a.text && SayTheSame(key, a, b)
    ensures SayTheSame(key, again, b)
  {
    if a.text != b.text {
      var k :| Mentions(key, a, k) && Mentions(key, b, k);
      assert Mentions(key, again, k);
    }
  }

  lemma DedupeBlockGains(key: SentenceKey, s: Memory, index: nat, block: Block, j: nat, c: string)
    requires KeyIgnoresEdges(key) && Pointing(s) && Truthful(key, s)
    requires var r := DedupeBlock(key, s, index, block);
             j < |r.kept| && c in r.kept[j].citations && (j < |s.kept| ==> c !in s.kept[j].citations)
    ensures c in block.citations && SayTheSame(key, DedupeBlock(key, s, index, block).kept[j], block)
  {
    var r := DedupeBlock(key, s, index, block);
    var parts := SentencesOf(block.text);
    var reading := Read(key, parts, |s.kept|, s.seen);
    ReadPoints(key, parts, |s.kept|, s.seen);
    if reading.keep == [] && parts != [] {
      assert (j as int) in reading.homes;
      HomeSaysTheSame(key, s, block, j);
      assert r.kept[j].text == s.kept[j].text;
    } else {
      KeptSaysTheSame(key, s, block);
    }
  }

  // The answer's citations, and so the documents it reaches, are untouched.
  lemma DedupeKeepsCitations(key: SentenceKey, blocks: seq<Block>)
    requires KeyIgnoresEdges(key)
    ensures CitationsOf(Deduped(key, blocks).kept) == CitationsOf(blocks)
  {
    assert CitationsOf(Deduped(key, blocks).kept) <= CitationsOf(blocks) by {
      DedupeInventsNone(key, blocks);
      HousedCitations(Saying(key), Deduped(key, blocks).kept, blocks);
    }
    assert CitationsOf(blocks) <= CitationsOf(Deduped(key, blocks).kept) by {
      DedupeLosesNone(key, blocks);
      HousedCitations(Saying(key), blocks, Deduped(key, blocks).kept);
    }
  }

  lemma DedupeKeepsDocuments(key: SentenceKey, blocks: seq<Block>, chunks: seq<Breadth.Chunk>)
    requires KeyIgnoresEdges(key)
    ensures Breadth.CitedDocuments(Deduped(key, blocks).kept, chunks) == Breadth.CitedDocuments(blocks, chunks)
  {
    DedupeKeepsCitations(key, blocks);
  }
}
