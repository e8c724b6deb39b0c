/** Positional lineage hashes: a block's place in its sequence, the running hash of the
    prefix that ends with it, and as many bits of its parent's hash as fit. */
module Lineage {
  import opened Outcome

  datatype Plh = Plh(position: nat, current: nat, parentFragment: nat)

  /** The hashing library is outside the repository: its four functions stay arbitrary. */
  datatype Hasher = Hasher(
    accepts: (seq<nat>, Option<string>) -> bool,
    block: (seq<nat>, Option<string>) -> nat,
    seed: nat -> nat,
    mix: (nat, nat) -> nat)

  const U32 := 0x1_0000_0000

  /** How much of the parent's hash a block at `position` can store: 54, 46 or 38 bits. */
  function FragmentModulus(position: nat): (m: nat)
    ensures m > 0
  {
    if position < 0x100 then 0x40_0000_0000_0000
    else if position < 0x1_0000 then 0x4000_0000_0000
    else 0x40_0000_0000
  }

  /** Position and fragment share 62 bits: 8 and 54, 16 and 46, or 24 and 38, the position taking the
      narrowest of the three it fits. */
  lemma FragmentWidths(position: nat)
    requires position < 0x100_0000
    ensures exists width | width in [0x100, 0x1_0000, 0x100_0000] ::
              && position < width && (width > 0x100 ==> width / 0x100 <= position)
              && width * FragmentModulus(position) == 0x4000_0000_0000_0000
  {
    var width := if position < 0x100 then 0x100 else if position < 0x1_0000 then 0x1_0000 else 0x100_0000;
    assert width in [0x100, 0x1_0000, 0x100_0000];
    assert width * FragmentModulus(position) == 0x4000_0000_0000_0000;
  }

  function FragmentForChild(p: Plh, childPosition: nat): nat {
    p.current % FragmentModulus(childPosition)
  }

  function Root(h: Hasher, blockHash: nat): Plh {
    Plh(0, h.seed(blockHash), 0)
  }

  function Extend(h: Hasher, parent: Plh, blockHash: nat): Plh {
    Plh(parent.position + 1, h.mix(parent.current, blockHash), FragmentForChild(parent, parent.position + 1))
  }

  function Next(h: Hasher, parent: Option<Plh>, blockHash: nat): Plh {
    match parent
    case None => Root(h, blockHash)
    case Some(p) => Extend(h, p, blockHash)
  }

  // ---- Requests cut into blocks ----

  datatype Block = Block(hash: nat, plh: Plh)

  /** The complete blocks of a token stream; a short remainder is dropped. */
  function Chunks(tokens: seq<nat>, width: nat): seq<seq<nat>>
    requires width > 0
  {
    if |tokens| < width then [] else [tokens[..width]] + Chunks(tokens[width..], width)
  }

  /** The blocks of a chunked stream, each extending the one before it. */
  function Link(h: Hasher, lora: Option<string>, parent: Option<Plh>, chunks: seq<seq<nat>>): (blocks: seq<Block>)
    ensures |blocks| == |chunks|
    decreases chunks
  {
    if chunks == [] then []
    else
      var hash := h.block(chunks[0], lora);
      var plh := Next(h, parent, hash);
      [Block(hash, plh)] + Link(h, lora, Some(plh), chunks[1..])
  }

  /** The library's request builder followed by its block splitter. */
  function IntoBlocks(h: Hasher, tokens: seq<nat>, width: nat, lora: Option<string>): Option<seq<Block>> {
    if !h.accepts(tokens, lora) || width == 0 then None
    else Some(Link(h, lora, None, Chunks(tokens, width)))
  }

  /** The lineage hash of one block under `parent`; the block size is truncated to 32 bits. */
  function ComputePlh(h: Hasher, parent: Option<Plh>, tokens: seq<nat>, blockSize: nat,
                      lora: Option<string>): Option<Plh> {
    match IntoBlocks(h, tokens, blockSize % U32, lora)
    case None => None
    case Some(blocks) =>
      if blocks == [] then None
      else if parent.None? then Some(blocks[0].plh)
      else Some(Extend(h, parent.value, blocks[0].hash))
  }

  /** A computed hash is the root of its block, or its parent extended by it. */
  lemma ComputePlhLinks(h: Hasher, parent: Option<Plh>, tokens: seq<nat>, blockSize: nat, lora: Option<string>)
    ensures ComputePlh(h, parent, tokens, blockSize, lora).Some? <==>
            h.accepts(tokens, lora) && 0 < blockSize % U32 <= |tokens|
    ensures ComputePlh(h, parent, tokens, blockSize, lora).Some? ==>
              ComputePlh(h, parent, tokens, blockSize, lora).value
              == Next(h, parent, h.block(tokens[..blockSize % U32], lora))
  {
  }

  /** Every block of a linked stream sits one position past its predecessor. */
  lemma {:induction false} LinkPositions(h: Hasher, lora: Option<string>, parent: Option<Plh>, chunks: seq<seq<nat>>,
                                         i: nat)
    requires i < |chunks|
    ensures Link(h, lora, parent, chunks)[i].plh.position == (if parent.None? then 0 else parent.value.position + 1) + i
    ensures Link(h, lora, parent, chunks)[i].hash == h.block(chunks[i], lora)
    ensures Link(h, lora, parent, chunks)[i].plh
            == Next(h, if i == 0 then parent else Some(Link(h, lora, parent, chunks)[i - 1].plh),
                    h.block(chunks[i], lora))
    decreases chunks
  {
    var plh := Next(h, parent, h.block(chunks[0], lora));
    if i > 0 {
      LinkPositions(h, lora, Some(plh), chunks[1..], i - 1);
    }
  }
}
