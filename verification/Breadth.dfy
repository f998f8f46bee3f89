// Breadth: duplicate claims merged, lost citations carried back, the documents an answer reaches
// (src/hrmosaic/agent/breadth.py).
module Breadth {
  import opened Blocks
  import opened Lists

  // Two texts make the same claim when their keys are equal; the key is arbitrary.
  type ClaimKey = string -> string

  // ----- merge -----

  // The citations, then those of `more` that are not there yet, in order.
  function Joined(citations: seq<string>, more: seq<string>): (r: seq<string>)
    ensures citations <= r
    ensures forall c :: c in r <==> c in citations || c in more
    decreases |more|
  {
    if more == [] then citations
    else Joined(if more[0] in citations then citations else citations + [more[0]], more[1..])
  }

  datatype MergeState = MergeState(kept: seq<Block>, seen: map<string, nat>, merged: seq<nat>)

  // Every remembered claim is made by a kept policy fact, and every kept policy fact is remembered.
  ghost predicate Indexed(key: ClaimKey, s: MergeState) {
    && (forall k :: k in s.seen ==>
          s.seen[k] < |s.kept| && s.kept[s.seen[k]].kind.PolicyFact? && key(s.kept[s.seen[k]].text) == k)
    && (forall j :: 0 <= j < |s.kept| && s.kept[j].kind.PolicyFact? ==>
          key(s.kept[j].text) in s.seen && s.seen[key(s.kept[j].text)] == j)
  }

  function MergeBlock(key: ClaimKey, s: MergeState, index: nat, block: Block): (r: MergeState)
    requires Indexed(key, s)
    ensures Indexed(key, r)
  {
    if !block.kind.PolicyFact? then s.(kept := s.kept + [block])
    else
      var k := key(block.text);
      if k in s.seen then
        var target := s.kept[s.seen[k]];
        var joined := target.(citations := Joined(target.citations, block.citations));
        s.(kept := s.kept[s.seen[k] := joined], merged := s.merged + [index])
      else s.(kept := s.kept + [block], seen := s.seen[k := |s.kept|])
  }

  function Merged(key: ClaimKey, blocks: seq<Block>): (r: MergeState)
    ensures Indexed(key, r)
  {
    if blocks == [] then MergeState([], map[], [])
    else
      var n := |blocks| - 1;
      MergeBlock(key, Merged(key, blocks[..n]), n, blocks[n])
  }

  lemma MergedNext(key: ClaimKey, blocks: seq<Block>, n: nat)
    requires n < |blocks|
    ensures Merged(key, blocks[..n + 1]) == MergeBlock(key, Merged(key, blocks[..n]), n, blocks[n])
  {
    assert blocks[..n + 1][..n] == blocks[..n];
  }

  // The blocks that stay, with the citations they gained, and the indexes of those merged away.
  method Merge(key: ClaimKey, blocks: seq<Block>) returns (kept: seq<Block>, merged: seq<nat>)
    ensures kept == Merged(key, blocks).kept && merged == Merged(key, blocks).merged
  {
    var seen: map<string, nat> := map[];
    kept, merged := [], [];
    for n := 0 to |blocks|
      invariant MergeState(kept, seen, merged) == Merged(key, blocks[..n])
    {
      MergedNext(key, blocks, n);
      var item := blocks[n];
      if !item.kind.PolicyFact? {
        kept := kept + [item];
        continue;
      }
      var k := key(item.text);
      if k in seen {
        var target := kept[seen[k]];
        var citations := AddMissing(target.citations, item.citations);
        kept := kept[seen[k] := target.(citations := citations)];
        merged := merged + [n];
        continue;
      }
      seen := seen[k := |kept|];
      kept := kept + [item];
    }
    assert blocks[..|blocks|] == blocks;
  }

  method AddMissing(citations: seq<string>, more: seq<string>) returns (r: seq<string>)
    ensures r == Joined(citations, more)
  {
    r := citations;
    for n := 0 to |more|
      invariant Joined(r, more[n..]) == Joined(citations, more)
    {
      var rest := more[n..];
      assert rest[0] == more[n] && rest[1..] == more[n + 1..];
      if more[n] !in r {
        r := r + [more[n]];
      }
    }
  }

  // Two blocks make the same claim: the same policy claim, or simply the same block.
  predicate SameClaim(key: ClaimKey, a: Block, b: Block) {
    (a.kind.PolicyFact? && b.kind.PolicyFact? && key(a.text) == key(b.text)) || a == b
  }

  function Claiming(key: ClaimKey): Sameness { (a: Block, b: Block) => SameClaim(key, a, b) }

  // Every citation ends on a kept block that makes the claim it was cited for.
  lemma {:induction false} MergeLosesNone(key: ClaimKey, blocks: seq<Block>)
    ensures Housed(Claiming(key), blocks, Merged(key, blocks).kept)
  {
    if blocks != [] {
      var n := |blocks| - 1;
      var s, r := Merged(key, blocks[..n]), Merged(key, blocks);
      MergeLosesNone(key, blocks[..n]);
      forall i, c | 0 <= i < |blocks| && c in blocks[i].citations
        ensures exists j :: 0 <= j < |r.kept| && c in r.kept[j].citations && Claiming(key)(blocks[i], r.kept[j])
      {
        var j: nat;
        if i < n {
          j := HousedAt(Claiming(key), blocks[..n], s.kept, i, c);
          StaysCited(key, s, n, blocks[n], blocks[i], j, c);
        } else {
          j := if blocks[n].kind.PolicyFact? then r.seen[key(blocks[n].text)] else |s.kept|;
          IsCited(key, s, n, blocks[n], j);
        }
        assert c in r.kept[j].citations && Claiming(key)(blocks[i], r.kept[j]);
      }
    }
  }

  lemma StaysCited(key: ClaimKey, s: MergeState, index: nat, block: Block, b: Block, j: nat, c: string)
    requires Indexed(key, s) && j < |s.kept| && c in s.kept[j].citations && SameClaim(key, b, s.kept[j])
    ensures var r := MergeBlock(key, s, index, block).kept;
            j < |r| && c in r[j].citations && SameClaim(key, b, r[j])
  {
  }

  lemma IsCited(key: ClaimKey, s: MergeState, index: nat, block: Block, j: nat)
    requires Indexed(key, s)
    requires j == if block.kind.PolicyFact? then MergeBlock(key, s, index, block).seen[key(block.text)] else |s.kept|
    ensures var r := MergeBlock(key, s, index, block).kept;
            j < |r| && (forall c :: c in block.citations ==> c in r[j].citations) && SameClaim(key, block, r[j])
  {
  }

  // And every citation of a kept block was cited for the claim that block makes.
  lemma {:induction false} MergeInventsNone(key: ClaimKey, blocks: seq<Block>)
    ensures Housed(Claiming(key), Merged(key, blocks).kept, blocks)
  {
    if blocks != [] {
      var n := |blocks| - 1;
      var s, r := Merged(key, blocks[..n]), Merged(key, blocks);
      MergeInventsNone(key, blocks[..n]);
      forall j, c | 0 <= j < |r.kept| && c in r.kept[j].citations
        ensures exists i :: 0 <= i < |blocks| && c in blocks[i].citations && Claiming(key)(r.kept[j], blocks[i])
      {
        var i := n;
        if j < |s.kept| && c in s.kept[j].citations {
          i := HousedAt(Claiming(key), s.kept, blocks[..n], j, c);
        }
        assert c in blocks[i].citations && Claiming(key)(r.kept[j], blocks[i]);
      }
    }
  }

  lemma MergeKeepsCitations(key: ClaimKey, blocks: seq<Block>)
    ensures CitationsOf(Merged(key, blocks).kept) == CitationsOf(blocks)
  {
    assert CitationsOf(Merged(key, blocks).kept) <= CitationsOf(blocks) by {
      MergeInventsNone(key, blocks);
      HousedCitations(Claiming(key), Merged(key, blocks).kept, blocks);
    }
    assert CitationsOf(blocks) <= CitationsOf(Merged(key, blocks).kept) by {
      MergeLosesNone(key, blocks);
      HousedCitations(Claiming(key), blocks, Merged(key, blocks).kept);
    }
  }

  // Block i repeats a claim an earlier policy fact made.
  predicate Repeats(key: ClaimKey, blocks: seq<Block>, i: nat) {
    && i < |blocks| && blocks[i].kind.PolicyFact?
    && exists h :: 0 <= h < i && blocks[h].kind.PolicyFact? && key(blocks[h].text) == key(blocks[i].text)
  }

  lemma {:induction false} SeenClaims(key: ClaimKey, blocks: seq<Block>, k: string)
    ensures k in Merged(key, blocks).seen <==> Claimed(key, blocks, k)
  {
    if blocks != [] {
      var n := |blocks| - 1;
      SeenClaims(key, blocks[..n], k);
      ClaimedNext(key, blocks, k);
    }
  }

  // Some policy fact makes the claim.
  predicate Claimed(key: ClaimKey, blocks: seq<Block>, k: string) {
    exists h :: 0 <= h < |blocks| && blocks[h].kind.PolicyFact? && key(blocks[h].text) == k
  }

  lemma ClaimedNext(key: ClaimKey, blocks: seq<Block>, k: string)
    requires blocks != []
    ensures var n := |blocks| - 1;
            Claimed(key, blocks, k)
            <==> Claimed(key, blocks[..n], k) || (blocks[n].kind.PolicyFact? && key(blocks[n].text) == k)
  {
    var n := |blocks| - 1;
    assert forall h :: 0 <= h < n ==> blocks[..n][h] == blocks[h];
  }

  lemma RepeatIsSeen(key: ClaimKey, blocks: seq<Block>, n: nat)
    requires n < |blocks| && blocks[n].kind.PolicyFact?
    ensures key(blocks[n].text) in Merged(key, blocks[..n]).seen <==> Repeats(key, blocks, n)
  {
    SeenClaims(key, blocks[..n], key(blocks[n].text));
    assert forall h :: 0 <= h < n ==> blocks[..n][h] == blocks[h];
  }

  // The blocks merged away are exactly the repeats.
  lemma {:induction false} MergedAreRepeats(key: ClaimKey, blocks: seq<Block>, i: nat)
    ensures i in Merged(key, blocks).merged <==> Repeats(key, blocks, i)
  {
    if blocks != [] {
      var n := |blocks| - 1;
      MergedAreRepeats(key, blocks[..n], i);
      MergedGrows(key, Merged(key, blocks[..n]), n, blocks[n], i);
      if blocks[n].kind.PolicyFact? {
        RepeatIsSeen(key, blocks, n);
      }
      if i < n {
        RepeatsBefore(key, blocks, n, i);
      }
    }
  }

  lemma MergedGrows(key: ClaimKey, s: MergeState, index: nat, block: Block, i: nat)
    requires Indexed(key, s)
    ensures i in MergeBlock(key, s, index, block).merged
            <==> i in s.merged || (i == index && block.kind.PolicyFact? && key(block.text) in s.seen)
  {
  }

  lemma RepeatsBefore(key: ClaimKey, blocks: seq<Block>, n: nat, i: nat)
    requires i < n <= |blocks|
    ensures Repeats(key, blocks[..n], i) <==> Repeats(key, blocks, i)
  {
    assert forall h :: 0 <= h <= i ==> blocks[..n][h] == blocks[h];
  }

  // Every other block is kept, in order, with nothing but its citations changed.
  lemma {:induction false} KeptAreFirsts(key: ClaimKey, blocks: seq<Block>)
    ensures Bare(Merged(key, blocks).kept) == Bare(Firsts(key, blocks, |blocks|))
  {
    if blocks != [] {
      var n := |blocks| - 1;
      KeptAreFirsts(key, blocks[..n]);
      FirstsPrefix(key, blocks, n);
      if blocks[n].kind.PolicyFact? {
        RepeatIsSeen(key, blocks, n);
      }
      BareOfMerge(key, Merged(key, blocks[..n]), n, blocks[n]);
      BareConcat(Firsts(key, blocks, n), [blocks[n]]);
    }
  }

  lemma BareConcat(a: seq<Block>, b: seq<Block>)
    ensures Bare(a + b) == Bare(a) + Bare(b)
  {
  }

  lemma BareOfMerge(key: ClaimKey, s: MergeState, index: nat, block: Block)
    requires Indexed(key, s)
    ensures Bare(MergeBlock(key, s, index, block).kept)
            == if block.kind.PolicyFact? && key(block.text) in s.seen then Bare(s.kept)
               else Bare(s.kept) + Bare([block])
  {
  }

  // The blocks without their citations.
  function Bare(blocks: seq<Block>): (r: seq<Block>)
    ensures |r| == |blocks| && forall i :: 0 <= i < |blocks| ==> r[i] == blocks[i].(citations := [])
  {
    seq(|blocks|, i requires 0 <= i < |blocks| => blocks[i].(citations := []))
  }

  // The first n blocks less the repeats.
  function Firsts(key: ClaimKey, blocks: seq<Block>, n: nat): seq<Block>
    requires n <= |blocks|
  {
    if n == 0 then []
    else Firsts(key, blocks, n - 1) + if Repeats(key, blocks, n - 1) then [] else [blocks[n - 1]]
  }

  lemma {:induction false} FirstsPrefix(key: ClaimKey, blocks: seq<Block>, n: nat)
    requires n < |blocks|
    ensures Firsts(key, blocks[..|blocks| - 1], n) == Firsts(key, blocks, n)
  {
    if n > 0 {
      FirstsPrefix(key, blocks, n - 1);
    }
  }

  // Blocks no two of whose policy facts make one claim are left alone.
  lemma {:induction false} DistinctClaimsAreKept(key: ClaimKey, blocks: seq<Block>)
    requires forall i, j :: 0 <= i < j < |blocks| && blocks[i].kind.PolicyFact? && blocks[j].kind.PolicyFact? ==>
               key(blocks[i].text) != key(blocks[j].text)
    ensures Merged(key, blocks).kept == blocks && Merged(key, blocks).merged == []
  {
    if blocks != [] {
      var n := |blocks| - 1;
      DistinctClaimsAreKept(key, blocks[..n]);
      NewClaimIsKept(key, Merged(key, blocks[..n]), n, blocks[n]);
      assert blocks == blocks[..n] + [blocks[n]];
    }
  }

  lemma NewClaimIsKept(key: ClaimKey, s: MergeState, index: nat, block: Block)
    requires Indexed(key, s)
    requires forall j :: 0 <= j < |s.kept| && s.kept[j].kind.PolicyFact? && block.kind.PolicyFact? ==>
                           key(s.kept[j].text) != key(block.text)
    ensures MergeBlock(key, s, index, block).kept == s.kept + [block]
    ensures MergeBlock(key, s, index, block).merged == s.merged
  {
  }

  // Merging is idempotent, because no two kept policy facts make the same claim.
  lemma MergeIdempotent(key: ClaimKey, blocks: seq<Block>)
    ensures var once := Merged(key, blocks).kept;
            Merged(key, once).kept == once && Merged(key, once).merged == []
  {
    DistinctClaimsAreKept(key, Merged(key, blocks).kept);
  }

  // ----- the documents an answer reaches -----

  datatype Chunk = Chunk(id: string, doc: string, quarantined: bool)

  // chunk id -> document, for the chunks an answer could cite; a repeated id takes its last chunk.
  function Documents(chunks: seq<Chunk>): map<string, string> {
    if chunks == [] then map[]
    else
      var last := chunks[|chunks| - 1];
      var before := Documents(chunks[..|chunks| - 1]);
      if last.quarantined then before else before[last.id := last.doc]
  }

  function CitedDocuments(blocks: seq<Block>, chunks: seq<Chunk>): set<string> {
    var documents := Documents(chunks);
    set c | c in CitationsOf(blocks) && c in documents :: documents[c]
  }

  // The k-th chunk can be cited, and none behind it can under its id.
  predicate LastCitable(chunks: seq<Chunk>, k: nat) {
    && k < |chunks| && !chunks[k].quarantined
    && forall j :: k < j < |chunks| && !chunks[j].quarantined ==> chunks[j].id != chunks[k].id
  }

  lemma {:induction false} DocumentsExactly(chunks: seq<Chunk>, id: string)
    ensures id in Documents(chunks) <==> exists k: nat :: LastCitable(chunks, k) && chunks[k].id == id
    ensures forall k: nat :: LastCitable(chunks, k) && chunks[k].id == id ==> Documents(chunks)[id] == chunks[k].doc
  {
    if chunks != [] {
      var n := |chunks| - 1;
      DocumentsExactly(chunks[..n], id);
      forall k: nat | k < n && !(!chunks[n].quarantined && chunks[n].id == chunks[k].id)
        ensures LastCitable(chunks, k) <==> LastCitable(chunks[..n], k)
      {
      }
      assert LastCitable(chunks, n) <==> !chunks[n].quarantined;
      if id in Documents(chunks[..n]) && (chunks[n].quarantined || chunks[n].id != id) {
        var k: nat :| LastCitable(chunks[..n], k) && chunks[..n][k].id == id;
        assert LastCitable(chunks, k) && chunks[k].id == id;
      }
    }
  }

  // The documents an answer reaches: those of the citable chunks it cites, an id read as its last chunk.
  lemma CitedExactly(blocks: seq<Block>, chunks: seq<Chunk>, d: string)
    ensures d in CitedDocuments(blocks, chunks) <==>
            exists k: nat, b ::
              LastCitable(chunks, k) && chunks[k].doc == d && b in blocks && chunks[k].id in b.citations
  {
    forall id
      ensures id in Documents(chunks) <==> exists k: nat :: LastCitable(chunks, k) && chunks[k].id == id
      ensures forall k: nat :: LastCitable(chunks, k) && chunks[k].id == id ==> Documents(chunks)[id] == chunks[k].doc
    {
      DocumentsExactly(chunks, id);
    }
    if d in CitedDocuments(blocks, chunks) {
      var id :| id in CitationsOf(blocks) && id in Documents(chunks) && Documents(chunks)[id] == d;
      var k: nat :| LastCitable(chunks, k) && chunks[k].id == id;
      var b :| b in blocks && id in b.citations;
    }
    if k: nat, b :| LastCitable(chunks, k) && chunks[k].doc == d && b in blocks && chunks[k].id in b.citations {
      assert chunks[k].id in CitationsOf(blocks) && chunks[k].id in Documents(chunks);
    }
  }

  lemma MergeKeepsDocuments(key: ClaimKey, blocks: seq<Block>, chunks: seq<Chunk>)
    ensures CitedDocuments(Merged(key, blocks).kept, chunks) == CitedDocuments(blocks, chunks)
  {
    MergeKeepsCitations(key, blocks);
  }

  // The documents of the unquarantined chunks that no block cites: distinct, and by first offer.
  method UncitedDocuments(blocks: seq<Block>, chunks: seq<Chunk>) returns (missing: seq<string>)
    ensures forall d :: d in missing <==>
              d !in CitedDocuments(blocks, chunks) && exists c :: c in chunks && !c.quarantined && c.doc == d
    ensures forall i, j :: 0 <= i < j < |missing| ==> missing[i] != missing[j]
    ensures forall i, j :: 0 <= i < j < |missing| ==> FirstOffer(chunks, missing[i]) < FirstOffer(chunks, missing[j])
  {
    var cited := CitedDocuments(blocks, chunks);
    missing := [];
    for n := 0 to |chunks|
      invariant forall d :: d in missing <==>
                  d !in cited && exists k :: 0 <= k < n && !chunks[k].quarantined && chunks[k].doc == d
      invariant forall i :: 0 <= i < |missing| ==> FirstOffer(chunks, missing[i]) < n
      invariant forall i, j :: 0 <= i < j < |missing| ==>
                  missing[i] != missing[j] && FirstOffer(chunks, missing[i]) < FirstOffer(chunks, missing[j])
    {
      var chunk := chunks[n];
      if !chunk.quarantined && chunk.doc !in cited && chunk.doc !in missing {
        FirstOfferIs(chunks, chunk.doc, n);
        missing := missing + [chunk.doc];
      }
    }
  }

  // The position of the first citable chunk of a document.
  function FirstOffer(chunks: seq<Chunk>, doc: string): nat {
    if chunks == [] || (!chunks[0].quarantined && chunks[0].doc == doc) then 0
    else 1 + FirstOffer(chunks[1..], doc)
  }

  lemma {:induction false} FirstOfferIs(chunks: seq<Chunk>, doc: string, n: nat)
    requires n < |chunks| && !chunks[n].quarantined && chunks[n].doc == doc
    requires forall k :: 0 <= k < n ==> chunks[k].quarantined || chunks[k].doc != doc
    ensures FirstOffer(chunks, doc) == n
  {
    if n > 0 {
      FirstOfferIs(chunks[1..], doc, n - 1);
    }
  }

  // ----- carry -----

  // The surviving block under each id: the last one, if an id is repeated.
  function Survivors(blocks: seq<Block>): (m: map<int, nat>)
    ensures forall id :: id in m ==> m[id] < |blocks| && blocks[m[id]].id == Some(id)
    ensures forall j :: 0 <= j < |blocks| && blocks[j].id.Some? ==>
                          blocks[j].id.value in m && j <= m[blocks[j].id.value]
  {
    if blocks == [] then map[]
    else
      var n := |blocks| - 1;
      var before := Survivors(blocks[..n]);
      if blocks[n].id.Some? then before[blocks[n].id.value := n] else before
  }

  function Lost(present: seq<string>, wanted: seq<string>): (lost: seq<string>)
    ensures forall c :: c in lost <==> c in wanted && c !in present
    ensures lost == [] <==> forall c :: c in wanted ==> c in present
  {
    if wanted == [] then []
    else (if wanted[0] in present then [] else [wanted[0]]) + Lost(present, wanted[1..])
  }

  function CarryBlock(survivors: map<int, nat>, kept: seq<Block>, block: Block): (r: (seq<Block>, seq<string>))
    requires forall id :: id in survivors ==> 0 <= survivors[id] < |kept|
    ensures |r.0| == |kept|
  {
    if block.id.None? || block.id.value !in survivors then (kept, [])
    else
      var id := block.id.value;
      var j := survivors[id];
      assert 0 <= j < |kept|;
      var lost := Lost(kept[j].citations, block.citations);
      (kept[j := kept[j].(citations := kept[j].citations + lost)], lost)
  }

  function Carried(reference: seq<Block>, blocks: seq<Block>): (r: (seq<Block>, seq<string>))
    ensures |r.0| == |blocks|
  {
    if reference == [] then (blocks, [])
    else
      var n := |reference| - 1;
      var (kept, carried) := Carried(reference[..n], blocks);
      var (next, lost) := CarryBlock(Survivors(blocks), kept, reference[n]);
      (next, carried + lost)
  }

  // The blocks with what each had in the reference, and the citations that were put back.
  method CarryCitations(reference: seq<Block>, blocks: seq<Block>) returns (kept: seq<Block>, carried: seq<string>)
    ensures (kept, carried) == Carried(reference, blocks)
  {
    var survivors := Survivors(blocks);
    kept, carried := blocks, [];
    for n := 0 to |reference|
      invariant |kept| == |blocks| && (kept, carried) == Carried(reference[..n], blocks)
    {
      assert reference[..n + 1][..n] == reference[..n] && carried + [] == carried;
      var block := reference[n];
      if block.id.None? || block.id.value !in survivors {
        continue;
      }
      var target := survivors[block.id.value];
      var lost := Lost(kept[target].citations, block.citations);
      if lost == [] {
        assert kept[target].citations + lost == kept[target].citations;
        assert kept[target := kept[target]] == kept && carried + lost == carried;
        continue;
      }
      kept := kept[target := kept[target].(citations := kept[target].citations + lost)];
      carried := carried + lost;
    }
    assert reference[..|reference|] == reference;
  }

  // Block j is where the citations of the reference block r go back to.
  predicate Receives(blocks: seq<Block>, r: Block, j: nat) {
    r.id.Some? && r.id.value in Survivors(blocks) && Survivors(blocks)[r.id.value] == j
  }

  // The carry, exactly: nothing but citations changes; what was there stays, in front; a block
  // gains a citation just when a reference block it is the home of has it.
  lemma CarryIsExact(reference: seq<Block>, blocks: seq<Block>)
    ensures var kept := Carried(reference, blocks).0;
            forall j :: 0 <= j < |blocks| ==>
              && blocks[j].citations <= kept[j].citations
              && kept[j] == blocks[j].(citations := kept[j].citations)
              && forall c :: c in kept[j].citations <==>
                   c in blocks[j].citations || exists r :: r in reference && Receives(blocks, r, j) && c in r.citations
  {
    var kept := Carried(reference, blocks).0;
    forall j | 0 <= j < |blocks|
      ensures blocks[j].citations <= kept[j].citations && kept[j] == blocks[j].(citations := kept[j].citations)
      ensures forall c :: c in kept[j].citations <==>
                c in blocks[j].citations || exists r :: r in reference && Receives(blocks, r, j) && c in r.citations
    {
      CarryStays(reference, blocks, j);
      forall c ensures c in kept[j].citations <==>
                c in blocks[j].citations || exists r :: r in reference && Receives(blocks, r, j) && c in r.citations
      {
        CarryGains(reference, blocks, j, c);
      }
    }
  }

  lemma {:induction false} CarryStays(reference: seq<Block>, blocks: seq<Block>, j: nat)
    requires j < |blocks|
    ensures var kept := Carried(reference, blocks).0;
            blocks[j].citations <= kept[j].citations && kept[j] == blocks[j].(citations := kept[j].citations)
  {
    if reference != [] {
      CarryStays(reference[..|reference| - 1], blocks, j);
    }
  }

  // What the blocks have gained, one after the other: of each all that stands behind its old citations.
  function Gained(blocks: seq<Block>, kept: seq<Block>): multiset<string>
    requires |blocks| == |kept| && forall j :: 0 <= j < |blocks| ==> |blocks[j].citations| <= |kept[j].citations|
  {
    if blocks == [] then multiset{}
    else multiset(kept[0].citations[|blocks[0].citations|..]) + Gained(blocks[1..], kept[1..])
  }

  lemma {:induction false} GainedNothing(blocks: seq<Block>)
    ensures Gained(blocks, blocks) == multiset{}
  {
    if blocks != [] {
      GainedNothing(blocks[1..]);
    }
  }

  lemma {:induction false} GainedMore(blocks: seq<Block>, kept: seq<Block>, j: nat, lost: seq<string>)
    requires |blocks| == |kept| && j < |kept|
    requires forall i :: 0 <= i < |blocks| ==> |blocks[i].citations| <= |kept[i].citations|
    ensures var next := kept[j := kept[j].(citations := kept[j].citations + lost)];
            Gained(blocks, next) == Gained(blocks, kept) + multiset(lost)
  {
    var next := kept[j := kept[j].(citations := kept[j].citations + lost)];
    if j == 0 {
      var n := |blocks[0].citations|;
      assert next[1..] == kept[1..];
      assert next[0].citations[n..] == kept[0].citations[n..] + lost;
    } else {
      assert next[1..] == kept[1..][j - 1 := kept[1..][j - 1].(citations := kept[1..][j - 1].citations + lost)];
      GainedMore(blocks[1..], kept[1..], j - 1, lost);
    }
  }

  // The list handed back is all that the blocks have gained, each as often as it was put back.
  lemma {:induction false} CarriedIsGained(reference: seq<Block>, blocks: seq<Block>)
    ensures var (kept, carried) := Carried(reference, blocks);
            && (forall j :: 0 <= j < |blocks| ==> |blocks[j].citations| <= |kept[j].citations|)
            && multiset(carried) == Gained(blocks, kept)
  {
    if reference == [] {
      GainedNothing(blocks);
    } else {
      var n := |reference| - 1;
      var (kept, carried) := Carried(reference[..n], blocks);
      CarriedIsGained(reference[..n], blocks);
      CarryIsExact(reference[..n], blocks);
      assert carried + [] == carried;
      OneMoreGained(blocks, kept, reference[n]);
    }
  }

  lemma OneMoreGained(blocks: seq<Block>, kept: seq<Block>, r: Block)
    requires |blocks| == |kept| && forall j :: 0 <= j < |blocks| ==> |blocks[j].citations| <= |kept[j].citations|
    ensures var (next, lost) := CarryBlock(Survivors(blocks), kept, r);
            && (forall j :: 0 <= j < |blocks| ==> |blocks[j].citations| <= |next[j].citations|)
            && Gained(blocks, next) == Gained(blocks, kept) + multiset(lost)
  {
    var survivors := Survivors(blocks);
    if r.id.Some? && r.id.value in survivors {
      var j := survivors[r.id.value];
      GainedMore(blocks, kept, j, Lost(kept[j].citations, r.citations));
    }
  }

  function AddedTo(citations: seq<string>, more: seq<string>): seq<string> { Joined(citations, more)[|citations|..] }

  lemma AddedNext(citations: seq<string>, more: seq<string>)
    requires more != []
    ensures AddedTo(citations, more)
            == if more[0] in citations then AddedTo(citations, more[1..])
               else [more[0]] + AddedTo(citations + [more[0]], more[1..])
  {
  }

  // The citations that are joined on stand in the order they had.
  lemma {:induction false} JoinedInOrder(citations: seq<string>, more: seq<string>)
    ensures forall c :: c in AddedTo(citations, more) <==> c in more && c !in citations
    ensures OneAfterAnother(more, AddedTo(citations, more))
    decreases |more|
  {
    if more != [] {
      var next := if more[0] in citations then citations else citations + [more[0]];
      AddedNext(citations, more);
      JoinedInOrder(next, more[1..]);
      LaterInOrder(more, AddedTo(next, more[1..]));
    }
  }

  predicate OneAfterAnother(xs: seq<string>, r: seq<string>) {
    && (forall i :: 0 <= i < |r| ==> r[i] in xs)
    && forall i, j :: 0 <= i < j < |r| ==> FirstAt(xs, r[i]) < FirstAt(xs, r[j])
  }

  lemma LaterInOrder(more: seq<string>, later: seq<string>)
    requires more != [] && more[0] !in later && OneAfterAnother(more[1..], later)
    ensures OneAfterAnother(more, later) && OneAfterAnother(more, [more[0]] + later)
  {
    forall i | 0 <= i < |later|
      ensures later[i] in more && FirstAt(more, later[i]) == 1 + FirstAt(more[1..], later[i])
    {
      assert later[i] in more[1..] && later[i] in later;
    }
  }

  lemma {:induction false} CarryGains(reference: seq<Block>, blocks: seq<Block>, j: nat, c: string)
    requires j < |blocks|
    ensures c in Carried(reference, blocks).0[j].citations
            <==> c in blocks[j].citations || exists r :: r in reference && Receives(blocks, r, j) && c in r.citations
  {
    if reference != [] {
      var before, last := reference[..|reference| - 1], reference[|reference| - 1];
      CarryGains(before, blocks, j, c);
      CarryBlockGains(blocks, Carried(before, blocks).0, last, j, c);
      assert forall r :: r in reference <==> r in before || r == last;
    }
  }

  lemma CarryBlockGains(blocks: seq<Block>, kept: seq<Block>, r: Block, j: nat, c: string)
    requires j < |blocks| == |kept|
    ensures c in CarryBlock(Survivors(blocks), kept, r).0[j].citations
            <==> c in kept[j].citations || (Receives(blocks, r, j) && c in r.citations)
  {
  }

  // Nothing is left to carry when every reference block's citations are on its home.
  lemma {:induction false} NothingToCarry(reference: seq<Block>, blocks: seq<Block>)
    requires forall r, j: nat, c ::
               r in reference && Receives(blocks, r, j) && c in r.citations ==> c in blocks[j].citations
    ensures Carried(reference, blocks) == (blocks, [])
  {
    if reference != [] {
      var n := |reference| - 1;
      assert forall r :: r in reference[..n] ==> r in reference;
      NothingToCarry(reference[..n], blocks);
      var none: seq<string> := [];
      assert none + none == none;
      var r := reference[n];
      assert r in reference;
      if r.id.Some? && r.id.value in Survivors(blocks) {
        var j := Survivors(blocks)[r.id.value];
        assert Receives(blocks, r, j);
        var lost := Lost(blocks[j].citations, r.citations);
        assert lost == [];
        assert blocks[j].citations + lost == blocks[j].citations;
        assert blocks[j := blocks[j]] == blocks;
      }
    }
  }

  lemma {:induction false} SameIdsSameSurvivors(a: seq<Block>, b: seq<Block>)
    requires |a| == |b| && forall j :: 0 <= j < |a| ==> a[j].id == b[j].id
    ensures Survivors(a) == Survivors(b)
  {
    if a != [] {
      SameIdsSameSurvivors(a[..|a| - 1], b[..|b| - 1]);
    }
  }

  // A second carry adds nothing.
  lemma CarryIdempotent(reference: seq<Block>, blocks: seq<Block>)
    ensures var once := Carried(reference, blocks).0;
            Carried(reference, once) == (once, [])
  {
    var once := Carried(reference, blocks).0;
    CarryIsExact(reference, blocks);
    SameIdsSameSurvivors(blocks, once);
    NothingToCarry(reference, once);
  }
}
