/** Data sub-blocks (sections 15 and 16 of the GIF89a specification): a size
    byte n in 1..255 followed by n data bytes, repeated, closed by a Block
    Terminator (a size byte of 0). The template reader walks image data this
    way, and a GIF decoder walks Comment Extension data the same way, which
    is what the hashquine layout relies on. */
module SubBlocks {
  import opened Wrappers
  import opened Bytes

  /** `s` is exactly a run of non-empty sub-blocks, with no terminator. */
  predicate Chain(s: seq<byte>)
    decreases |s|
  {
    |s| == 0 || (s[0] != 0 && 1 + s[0] as int <= |s| && Chain(s[1 + s[0] as int..]))
  }

  /** The walker: starting at a size byte at position i of `s`, skip
      sub-blocks up to and including the Block Terminator and return the
      position just past it; None when the data runs out first. */
  function Skip(s: seq<byte>, i: nat): (r: Option<nat>)
    ensures r.Some? ==> i < r.value <= |s| && s[r.value - 1] == 0
    decreases |s| - i
  {
    if i >= |s| then None
    else if s[i] == 0 then Some(i + 1)
    else if i + 1 + s[i] as int >= |s| then None
    else Skip(s, i + 1 + s[i] as int)
  }

  /** A size byte followed by that many data bytes is one sub-block. */
  lemma OneSubBlock(size: byte, data: seq<byte>)
    requires size != 0 && size as int == |data|
    ensures Chain([size] + data)
  {
    assert ([size] + data)[1 + size as int..] == [];
  }

  /** Runs of sub-blocks concatenate into a run. */
  lemma {:induction false} ChainAppend(a: seq<byte>, b: seq<byte>)
    requires Chain(a) && Chain(b)
    ensures Chain(a + b)
    decreases |a|
  {
    if |a| > 0 {
      var n := 1 + a[0] as int;
      assert (a + b)[n..] == a[n..] + b;
      ChainAppend(a[n..], b);
    } else {
      assert a + b == b;
    }
  }

  /** A run of sub-blocks is transparent to the walker: walking from its
      first size byte lands where walking from the byte after it does. */
  lemma {:induction false} SkipThroughChain(s: seq<byte>, i: nat, j: nat)
    requires i <= j <= |s|
    requires Chain(s[i..j])
    ensures Skip(s, i) == Skip(s, j)
    decreases j - i
  {
    hide Skip, Chain;
    if i < j {
      ChainHead(s, i, j);
      var next := i + 1 + s[i] as int;
      SkipThroughChain(s, next, j);
      SkipHead(s, i);
    }
  }

  /** The first sub-block of a run inside `s`, and the run after it. */
  lemma ChainHead(s: seq<byte>, i: nat, j: nat)
    requires i < j <= |s| && Chain(s[i..j])
    ensures s[i] != 0 && i + 1 + s[i] as int <= j && Chain(s[i + 1 + s[i] as int..j])
  {
    assert s[i..j][0] == s[i];
    assert s[i..j][1 + s[i] as int..] == s[i + 1 + s[i] as int..j];
  }

  /** One step of the walker over a non-empty sub-block. */
  lemma SkipHead(s: seq<byte>, i: nat)
    requires i < |s| && s[i] != 0
    ensures Skip(s, i) == Skip(s, i + 1 + s[i] as int)
  {
  }

  /** Completeness of the walker: a run of sub-blocks followed by a
      terminator is walked to just past that terminator. */
  lemma SkipFindsTerminator(s: seq<byte>, i: nat, j: nat)
    requires i <= j < |s| && s[j] == 0
    requires Chain(s[i..j])
    ensures Skip(s, i) == Some(j + 1)
  {
    SkipThroughChain(s, i, j);
  }

  /** Soundness of the walker: whatever it skips is a run of sub-blocks
      followed by the terminator. */
  lemma {:induction false} SkipIsChain(s: seq<byte>, i: nat)
    requires Skip(s, i).Some?
    ensures Chain(s[i..Skip(s, i).value - 1])
    decreases |s| - i
  {
    var k := Skip(s, i).value;
    if s[i] == 0 {
      assert s[i..k - 1] == [];
    } else {
      var n := s[i] as int;
      SkipIsChain(s, i + 1 + n);
      assert s[i..k - 1][1 + n..] == s[i + 1 + n..k - 1];
    }
  }

}
