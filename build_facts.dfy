/** What parsing a whole document leaves in the diagram (src/parser/markdown_parser.py,
    lines 60-160, with src/domain/diagram.py): the node order, the node under each key
    and the relation list, stated over the sequence of blocks. */
module BuildFacts {
  import opened Text
  import opened DomainNode
  import opened DomainRelation
  import opened DomainDiagram
  import opened MarkdownParser

  /** The dict's key order holds every key once, the keys given and no other, and
      keeps them in the order of their first insertion. */
  lemma {:induction false} KeyOrderFacts(keys: seq<string>)
    ensures Distinct(KeyOrder(keys))
    ensures forall k :: k in KeyOrder(keys) <==> k in keys
    ensures forall i, j :: 0 <= i < j < |KeyOrder(keys)| ==> IndexOf(keys, KeyOrder(keys)[i]) < IndexOf(keys, KeyOrder(keys)[j])
    decreases |keys|
  {
    if keys != [] {
      var init, last := keys[..|keys| - 1], keys[|keys| - 1];
      KeyOrderFacts(init);
      assert keys == init + [last];
      var prev := KeyOrder(init);
      forall k | k in init ensures IndexOf(keys, k) == IndexOf(init, k) {
        IndexOfPrefix(init, last, k);
      }
      if last !in init {
        IndexOfLast(init, last);
        forall i | 0 <= i < |prev| ensures IndexOf(keys, prev[i]) < |init| {
          assert prev[i] in init;
        }
      }
    }
  }

  lemma {:induction false} IndexOfPrefix(init: seq<string>, last: string, k: string)
    requires k in init
    ensures IndexOf(init + [last], k) == IndexOf(init, k)
  {
    var i := IndexOf(init, k);
    assert (init + [last])[i] == k;
  }

  lemma IndexOfLast(init: seq<string>, last: string)
    requires last !in init
    ensures IndexOf(init + [last], last) == |init|
  {
    assert (init + [last])[|init|] == last;
  }

  /** Every key of the blocks, and no other, has a block (and so a node). */
  lemma {:induction false} LastBlocksKeys(blocks: seq<Block>)
    ensures forall k :: k in LastBlocks(blocks) <==> k in Keys(blocks)
    decreases |blocks|
  {
    if blocks != [] {
      var init := blocks[..|blocks| - 1];
      LastBlocksKeys(init);
      assert Keys(blocks) == Keys(init) + [blocks[|blocks| - 1].key];
    }
  }

  /** The node under a key is built from the last block with that key: a later block
      with the same key replaces the node of an earlier one. */
  lemma {:induction false} LastBlockWins(blocks: seq<Block>, i: nat)
    requires i < |blocks|
    requires forall j :: i < j < |blocks| ==> blocks[j].key != blocks[i].key
    ensures blocks[i].key in LastBlocks(blocks)
    ensures LastBlocks(blocks)[blocks[i].key] == blocks[i]
    decreases |blocks|
  {
    if i < |blocks| - 1 {
      var init := blocks[..|blocks| - 1];
      assert init[i] == blocks[i];
      forall j | i < j < |init| ensures init[j].key != init[i].key {
        assert init[j] == blocks[j];
      }
      LastBlockWins(init, i);
    }
  }

  /** Relations accumulate document by document: those of two runs of blocks in a row
      are the first run's followed by the second's. */
  lemma {:induction false} AllRelationsAppend(a: seq<Block>, b: seq<Block>)
    ensures AllRelations(a + b) == AllRelations(a) + AllRelations(b)
    decreases |b|
  {
    if b == [] {
      assert a + b == a;
    } else {
      var init := b[..|b| - 1];
      var last := b[|b| - 1];
      assert (a + b)[..|a + b| - 1] == a + init;
      assert (a + b)[|a + b| - 1] == last;
      var added := BlockRelations(last.key, last.rela);
      assert AllRelations(a + b) == AllRelations(a + init) + added;
      AllRelationsAppend(a, init);
      AppendAssociates(AllRelations(a), AllRelations(init), added);
    }
  }
}
