/** Disk blocks as byte strings, and the XOR algebra that RAID 4 and 5 rest on. */
module Blocks {
  import opened Params

  type Block = b: seq<bv8> | |b| == BSIZE witness seq(BSIZE, i => 0)

  /** A set of disks, each a sequence of blocks. */
  type Disks = seq<seq<Block>>

  function ZeroBlock(): Block {
    seq(BSIZE, i => 0)
  }

  function Xor(a: Block, b: Block): (r: Block)
    ensures forall i :: 0 <= i < BSIZE ==> r[i] == a[i] ^ b[i]
  {
    seq(BSIZE, i requires 0 <= i < BSIZE => a[i] ^ b[i])
  }

  lemma XorBytes(x: bv8, y: bv8, z: bv8)
    ensures (x ^ y) ^ z == x ^ (y ^ z)
    ensures x ^ y == y ^ x
    ensures x ^ x == 0
    ensures x ^ 0 == x
  {
  }

  lemma XorAssoc(a: Block, b: Block, c: Block)
    ensures Xor(Xor(a, b), c) == Xor(a, Xor(b, c))
  {
    forall i | 0 <= i < BSIZE
      ensures Xor(Xor(a, b), c)[i] == Xor(a, Xor(b, c))[i]
    {
      XorBytes(a[i], b[i], c[i]);
    }
  }

  lemma XorComm(a: Block, b: Block)
    ensures Xor(a, b) == Xor(b, a)
  {
    forall i | 0 <= i < BSIZE
      ensures Xor(a, b)[i] == Xor(b, a)[i]
    {
      XorBytes(a[i], b[i], 0);
    }
  }

  lemma XorUnit(a: Block)
    ensures Xor(a, a) == ZeroBlock()
    ensures Xor(a, ZeroBlock()) == a
    ensures Xor(ZeroBlock(), a) == a
  {
    forall i | 0 <= i < BSIZE
      ensures Xor(a, a)[i] == 0 && Xor(a, ZeroBlock())[i] == a[i]
    {
      XorBytes(a[i], 0, 0);
    }
    XorComm(a, ZeroBlock());
  }

  /** Two blocks that cancel are equal. */
  lemma XorCancel(a: Block, b: Block)
    requires Xor(a, b) == ZeroBlock()
    ensures a == b
  {
    XorAssoc(a, b, b);
    XorUnit(b);
    XorUnit(a);
  }

  /** The read-modify-write parity update: swapping `old` for `new` in a sum. */
  lemma XorSwap(rest: Block, old': Block, new': Block)
    ensures Xor(rest, new') == Xor(Xor(Xor(rest, old'), old'), new')
  {
    XorAssoc(rest, old', old');
    XorUnit(old');
    XorUnit(rest);
  }

  /** Summands can be moved past each other. */
  lemma XorExchange(a: Block, b: Block, c: Block)
    ensures Xor(Xor(a, b), c) == Xor(Xor(a, c), b)
  {
    XorAssoc(a, b, c);
    XorComm(b, c);
    XorAssoc(a, c, b);
  }

  /** All disks have `nb` blocks. */
  ghost predicate Shaped(s: Disks, n: nat, nb: nat) {
    |s| == n && forall d :: 0 <= d < n ==> |s[d]| == nb
  }

  function SetBlock(disk: seq<Block>, row: nat, x: Block): (t: seq<Block>)
    requires row < |disk|
    ensures |t| == |disk| && t[row] == x
    ensures forall r :: 0 <= r < |disk| && r != row ==> t[r] == disk[r]
  {
    disk[row := x]
  }

  /** The effect of writing one block. */
  function Put(s: Disks, d: nat, row: nat, x: Block): (t: Disks)
    requires d < |s| && row < |s[d]|
    ensures |t| == |s| && forall e :: 0 <= e < |s| ==> |t[e]| == |s[e]|
  {
    s[d := SetBlock(s[d], row, x)]
  }
}
