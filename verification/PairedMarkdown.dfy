/** Separating Markdown code blocks that repeat an unsuffixed sibling document. */
module PairedMarkdown {
  import opened Bytes

  /** A block, with the document that owns it and its kind, info string and body. */
  datatype Block = Block(doc: string, fingerprint: string)

  const SUFFIX := ".zh.md"

  function UnsuffixedSibling(doc: string): (sibling: Option<string>)
    ensures sibling.Some? ==> |sibling.value| < |doc|
  {
    if |SUFFIX| <= |doc| && doc[|doc| - |SUFFIX|..] == SUFFIX then Some(doc[..|doc| - |SUFFIX|] + ".md") else None
  }

  /** The fingerprints of a document's blocks, in order. */
  function Fingerprints(blocks: seq<Block>, doc: string): seq<string> {
    if blocks == [] then []
    else
      var last := blocks[|blocks| - 1];
      Fingerprints(blocks[..|blocks| - 1], doc) + if last.doc == doc then [last.fingerprint] else []
  }

  predicate HasBlocks(blocks: seq<Block>, doc: string) {
    exists b :: b in blocks && b.doc == doc
  }

  lemma {:induction false} HasBlocksIff(blocks: seq<Block>, doc: string)
    ensures HasBlocks(blocks, doc) <==> Fingerprints(blocks, doc) != []
    decreases |blocks|
  {
    if blocks != [] {
      var before, last := blocks[..|blocks| - 1], blocks[|blocks| - 1];
      assert blocks == before + [last];
      HasBlocksIff(before, doc);
      if b :| b in blocks && b.doc == doc {
        assert b in before || b == last;
      }
    }
  }

  /** A document whose blocks are those of its sibling, fingerprint by fingerprint. */
  predicate IsDerivative(blocks: seq<Block>, doc: string) {
    var sibling := UnsuffixedSibling(doc);
    && HasBlocks(blocks, doc) && sibling.Some?
    && Fingerprints(blocks, sibling.value) == Fingerprints(blocks, doc)
  }

  /** The blocks of derivative documents, or of the others. */
  function Chosen(blocks: seq<Block>, within: seq<Block>, derivative: bool): seq<Block> {
    if blocks == [] then []
    else
      var last := blocks[|blocks| - 1];
      Chosen(blocks[..|blocks| - 1], within, derivative) +
      if IsDerivative(within, last.doc) == derivative then [last] else []
  }

  // ----- The partition -----

  method GroupByDoc(blocks: seq<Block>) returns (byDoc: map<string, seq<string>>)
    ensures forall doc :: doc in byDoc <==> HasBlocks(blocks, doc)
    ensures forall doc :: doc in byDoc ==> byDoc[doc] == Fingerprints(blocks, doc)
  {
    byDoc := map[];
    for i := 0 to |blocks|
      invariant forall doc :: doc in byDoc <==> Fingerprints(blocks[..i], doc) != []
      invariant forall doc :: doc in byDoc ==> byDoc[doc] == Fingerprints(blocks[..i], doc)
    {
      assert blocks[..i + 1][..i] == blocks[..i];
      var block := blocks[i];
      if block.doc in byDoc {
        byDoc := byDoc[block.doc := byDoc[block.doc] + [block.fingerprint]];
      } else {
        byDoc := byDoc[block.doc := [block.fingerprint]];
      }
    }
    assert blocks[..|blocks|] == blocks;
    forall doc ensures HasBlocks(blocks, doc) <==> Fingerprints(blocks, doc) != [] {
      HasBlocksIff(blocks, doc);
    }
  }

  /** Compares block by block, as long as both have one. */
  method SameBlocks(candidates: seq<string>, originals: seq<string>) returns (same: bool)
    ensures same <==> candidates == originals
  {
    if |originals| != |candidates| {
      return false;
    }
    for i := 0 to |candidates|
      invariant candidates[..i] == originals[..i]
    {
      if candidates[i] != originals[i] {
        return false;
      }
    }
    return true;
  }

  /** A stable split: derivative documents apart, everything in its order. */
  method Partition(blocks: seq<Block>) returns (primary: seq<Block>, derivatives: seq<Block>)
    ensures primary == Chosen(blocks, blocks, false) && derivatives == Chosen(blocks, blocks, true)
  {
    hide Fingerprints;
    var byDoc := GroupByDoc(blocks);
    var derivativeDocs: set<string>, remaining := {}, byDoc.Keys;
    while remaining != {}
      invariant remaining <= byDoc.Keys
      invariant forall doc :: doc in derivativeDocs <==> doc !in remaining && IsDerivative(blocks, doc)
      decreases |remaining|
    {
      var doc :| doc in remaining;
      remaining := remaining - {doc};
      var sibling := UnsuffixedSibling(doc);
      if sibling.Some? && sibling.value in byDoc {
        var same := SameBlocks(byDoc[doc], byDoc[sibling.value]);
        if same {
          derivativeDocs := derivativeDocs + {doc};
        }
      } else if sibling.Some? {
        HasBlocksIff(blocks, doc);
        HasBlocksIff(blocks, sibling.value);
      }
    }
    primary, derivatives := [], [];
    for i := 0 to |blocks|
      invariant primary == Chosen(blocks[..i], blocks, false) && derivatives == Chosen(blocks[..i], blocks, true)
    {
      assert blocks[..i + 1][..i] == blocks[..i];
      if blocks[i].doc in derivativeDocs {
        derivatives := derivatives + [blocks[i]];
      } else {
        primary := primary + [blocks[i]];
      }
    }
    assert blocks[..|blocks|] == blocks;
  }

  // ----- What makes a derivative -----

  /** The places of a document's blocks, in order. */
  ghost predicate Places(blocks: seq<Block>, doc: string, at: seq<nat>) {
    && (forall j, k :: 0 <= j < k < |at| ==> at[j] < at[k])
    && (forall k :: 0 <= k < |at| ==> at[k] < |blocks| && blocks[at[k]].doc == doc)
    && (forall i :: 0 <= i < |blocks| && blocks[i].doc == doc ==> i in at)
  }

  ghost predicate Match(blocks: seq<Block>, doc: string, at: seq<nat>, other: string, from: seq<nat>) {
    && Places(blocks, doc, at) && Places(blocks, other, from) && |at| == |from| > 0
    && forall k :: 0 <= k < |at| ==> blocks[at[k]].fingerprint == blocks[from[k]].fingerprint
  }

  /** Place by place, the blocks of both documents carry the same fingerprints; there is at least one. */
  ghost predicate Repeats(blocks: seq<Block>, doc: string, other: string) {
    exists at, from :: Match(blocks, doc, at, other, from)
  }

  lemma {:induction false} PlacesExist(blocks: seq<Block>, doc: string) returns (at: seq<nat>)
    ensures Places(blocks, doc, at)
    decreases |blocks|
  {
    at := [];
    if blocks != [] {
      var front, last := blocks[..|blocks| - 1], blocks[|blocks| - 1];
      at := PlacesExist(front, doc);
      if last.doc == doc {
        at := at + [|front|];
      }
    }
  }

  lemma LastPlace(blocks: seq<Block>, doc: string, at: seq<nat>)
    requires blocks != [] && Places(blocks, doc, at) && blocks[|blocks| - 1].doc == doc
    ensures at != [] && at[|at| - 1] == |blocks| - 1
  {
    assert at != [] && |blocks| - 1 in at;
    forall k | 0 <= k < |at| ensures at[k] <= at[|at| - 1] {
    }
  }

  lemma PlacesBefore(blocks: seq<Block>, doc: string, at: seq<nat>)
    requires blocks != [] && Places(blocks, doc, at)
    ensures var front, last := blocks[..|blocks| - 1], blocks[|blocks| - 1];
            if last.doc == doc then at != [] && at[|at| - 1] == |front| && Places(front, doc, at[..|at| - 1])
            else Places(front, doc, at)
  {
    var front, last := blocks[..|blocks| - 1], blocks[|blocks| - 1];
    if last.doc == doc {
      LastPlace(blocks, doc, at);
      var less := at[..|at| - 1];
      assert at == less + [|front|];
      forall i | 0 <= i < |front| && front[i].doc == doc ensures i in less {
        assert blocks[i].doc == doc && i in at;
      }
    } else {
      assert forall k :: 0 <= k < |at| ==> at[k] != |front|;
    }
  }

  lemma PlacesInside(blocks: seq<Block>, doc: string, at: seq<nat>)
    requires Places(blocks, doc, at)
    ensures forall k :: 0 <= k < |at| ==> at[k] < |blocks|
    ensures blocks == [] ==> at == []
  {
    assert at != [] ==> at[0] < |blocks|;
  }

  lemma FingerprintsStep(blocks: seq<Block>, doc: string)
    ensures if blocks == [] then Fingerprints(blocks, doc) == []
            else
              var before, last := Fingerprints(blocks[..|blocks| - 1], doc), blocks[|blocks| - 1];
              Fingerprints(blocks, doc) == if last.doc == doc then before + [last.fingerprint] else before
  {
  }

  lemma {:induction false} FingerprintsAtPlaces(blocks: seq<Block>, doc: string, at: seq<nat>, k: nat)
    requires Places(blocks, doc, at)
    ensures |Fingerprints(blocks, doc)| == |at|
    ensures k < |at| ==> Fingerprints(blocks, doc)[k] == blocks[at[k]].fingerprint
    decreases |blocks|
  {
    hide Places, Fingerprints;
    PlacesInside(blocks, doc, at);
    FingerprintsStep(blocks, doc);
    if blocks != [] {
      var front, last := blocks[..|blocks| - 1], blocks[|blocks| - 1];
      PlacesBefore(blocks, doc, at);
      var less := if last.doc == doc then at[..|at| - 1] else at;
      PlacesInside(front, doc, less);
      FingerprintsAtPlaces(front, doc, less, k);
    }
  }

  lemma AllAtPlaces(blocks: seq<Block>, doc: string, at: seq<nat>)
    requires Places(blocks, doc, at)
    ensures |Fingerprints(blocks, doc)| == |at|
    ensures forall k :: 0 <= k < |at| ==> Fingerprints(blocks, doc)[k] == blocks[at[k]].fingerprint
  {
    hide Fingerprints;
    FingerprintsAtPlaces(blocks, doc, at, 0);
    forall k | 0 <= k < |at| ensures Fingerprints(blocks, doc)[k] == blocks[at[k]].fingerprint {
      FingerprintsAtPlaces(blocks, doc, at, k);
    }
  }

  lemma RepeatsExactly(blocks: seq<Block>, doc: string, other: string)
    ensures Repeats(blocks, doc, other) <==>
            Fingerprints(blocks, doc) != [] && Fingerprints(blocks, doc) == Fingerprints(blocks, other)
  {
    hide Fingerprints, Places;
    if at, from :| Match(blocks, doc, at, other, from) {
      AllAtPlaces(blocks, doc, at);
      AllAtPlaces(blocks, other, from);
    }
    if Fingerprints(blocks, doc) != [] && Fingerprints(blocks, doc) == Fingerprints(blocks, other) {
      var at := PlacesExist(blocks, doc);
      var from := PlacesExist(blocks, other);
      AllAtPlaces(blocks, doc, at);
      AllAtPlaces(blocks, other, from);
      assert Match(blocks, doc, at, other, from);
    }
  }

  /** `stem.zh.md`, with just the blocks of `stem.md`. */
  ghost predicate RepeatsSibling(blocks: seq<Block>, doc: string) {
    exists stem: string :: doc == stem + ".zh.md" && Repeats(blocks, doc, stem + ".md")
  }

  lemma SiblingOf(doc: string, stem: string)
    ensures doc == stem + ".zh.md" <==> |doc| >= 6 && doc[|doc| - 6..] == ".zh.md" && stem == doc[..|doc| - 6]
  {
    if |doc| >= 6 {
      assert doc == doc[..|doc| - 6] + doc[|doc| - 6..];
    }
  }

  lemma DerivativeRepeats(blocks: seq<Block>, doc: string)
    ensures IsDerivative(blocks, doc) <==> RepeatsSibling(blocks, doc)
  {
    hide Repeats, Fingerprints;
    HasBlocksIff(blocks, doc);
    forall stem ensures doc == stem + ".zh.md" <==> UnsuffixedSibling(doc).Some? && stem == doc[..|doc| - 6] {
      SiblingOf(doc, stem);
    }
    if UnsuffixedSibling(doc).Some? {
      RepeatsExactly(blocks, doc, doc[..|doc| - 6] + ".md");
      assert doc == doc[..|doc| - 6] + ".zh.md";
    }
  }

  /** A block goes to the derivatives exactly when its document repeats its sibling, and else stays primary. */
  lemma {:induction false} DerivativesExactly(blocks: seq<Block>, within: seq<Block>, b: Block)
    ensures b in Chosen(blocks, within, true) <==> b in blocks && RepeatsSibling(within, b.doc)
    ensures b in Chosen(blocks, within, false) <==> b in blocks && !RepeatsSibling(within, b.doc)
    decreases |blocks|
  {
    hide IsDerivative, RepeatsSibling;
    if blocks != [] {
      var front, last := blocks[..|blocks| - 1], blocks[|blocks| - 1];
      assert blocks == front + [last];
      DerivativesExactly(front, within, b);
      DerivativeRepeats(within, last.doc);
    }
  }

  // ----- No check is lost -----

  /** The two parts, taken in turn, make up the whole. */
  predicate Interleaves(a: seq<Block>, b: seq<Block>, whole: seq<Block>)
    decreases |whole|
  {
    if whole == [] then a == [] && b == []
    else
      var front, last := whole[..|whole| - 1], whole[|whole| - 1];
      || (a != [] && a[|a| - 1] == last && Interleaves(a[..|a| - 1], b, front))
      || (b != [] && b[|b| - 1] == last && Interleaves(a, b[..|b| - 1], front))
  }

  lemma {:induction false} PartsInterleave(blocks: seq<Block>, within: seq<Block>)
    ensures Interleaves(Chosen(blocks, within, false), Chosen(blocks, within, true), blocks)
    decreases |blocks|
  {
    hide IsDerivative;
    if blocks != [] {
      var front, last := blocks[..|blocks| - 1], blocks[|blocks| - 1];
      PartsInterleave(front, within);
      var a, b := Chosen(blocks, within, false), Chosen(blocks, within, true);
      if IsDerivative(within, last.doc) {
        assert a == Chosen(front, within, false) && b[..|b| - 1] == Chosen(front, within, true);
      } else {
        assert a[..|a| - 1] == Chosen(front, within, false) && b == Chosen(front, within, true);
      }
    }
  }

  /** Even through a chain of siblings, some document that is kept has the very same blocks. */
  lemma {:induction false} KeptOrigin(blocks: seq<Block>, doc: string) returns (origin: string)
    requires HasBlocks(blocks, doc)
    ensures HasBlocks(blocks, origin) && !IsDerivative(blocks, origin)
    ensures Fingerprints(blocks, origin) == Fingerprints(blocks, doc)
    decreases |doc|
  {
    origin := doc;
    if IsDerivative(blocks, doc) {
      var sibling := UnsuffixedSibling(doc).value;
      HasBlocksIff(blocks, doc);
      HasBlocksIff(blocks, sibling);
      origin := KeptOrigin(blocks, sibling);
    }
  }

  lemma {:induction false} ChosenFingerprints(blocks: seq<Block>, within: seq<Block>, doc: string)
    requires !IsDerivative(within, doc)
    ensures Fingerprints(Chosen(blocks, within, false), doc) == Fingerprints(blocks, doc)
    decreases |blocks|
  {
    hide IsDerivative;
    if blocks != [] {
      var before, last := blocks[..|blocks| - 1], blocks[|blocks| - 1];
      ChosenFingerprints(before, within, doc);
      var kept := Chosen(before, within, false);
      assert (kept + [last])[..|kept|] == kept && kept + [] == kept;
      assert Fingerprints(before, doc) + [] == Fingerprints(before, doc);
    }
  }

  /** Every document's sequence of blocks is checked, whole and in order, in some primary document. */
  lemma NoCheckLost(blocks: seq<Block>, doc: string) returns (origin: string)
    requires HasBlocks(blocks, doc)
    ensures Fingerprints(Chosen(blocks, blocks, false), origin) == Fingerprints(blocks, doc) != []
  {
    origin := KeptOrigin(blocks, doc);
    ChosenFingerprints(blocks, blocks, origin);
    HasBlocksIff(blocks, doc);
  }
}
