/** Keys of the `alternatives` table: (character position, hex digit), and
    the order in which the generator's two nested loops visit them. */
module Keys {

  type Key = (nat, nat)

  /** The order of the loops: position first, then digit. */
  predicate KeyLess(a: Key, b: Key) {
    a.0 < b.0 || (a.0 == b.0 && a.1 < b.1)
  }

  /** `for char in range(n)` at position p. */
  function DigitKeys(p: nat, n: nat): (ks: seq<Key>)
    ensures |ks| == n
    ensures forall c :: 0 <= c < n ==> ks[c] == (p, c)
  {
    seq(n, c => (p, c))
  }

  /** The keys the loops visit at positions 0..p-1: sixteen per blank
      (space) position of the mask, none for the others. */
  function KeysUpTo(mask: string, p: nat): (ks: seq<Key>)
    requires p <= |mask|
  {
    if p == 0 then []
    else KeysUpTo(mask, p - 1) + (if mask[p - 1] == ' ' then DigitKeys(p - 1, 16) else [])
  }

  /** Exactly the blank positions before p, each with every digit 0..15. */
  lemma {:induction false} KeysUpToMembers(mask: string, p: nat)
    requires p <= |mask|
    ensures forall k: Key :: k in KeysUpTo(mask, p) <==> k.0 < p && mask[k.0] == ' ' && k.1 < 16
  {
    if p > 0 {
      KeysUpToMembers(mask, p - 1);
      var ks := KeysUpTo(mask, p);
      forall k: Key ensures k in ks <==> k.0 < p && mask[k.0] == ' ' && k.1 < 16 {
        if k.0 == p - 1 && mask[p - 1] == ' ' && k.1 < 16 {
          assert DigitKeys(p - 1, 16)[k.1] == k;
        }
      }
    }
  }

  /** The loops visit keys in strictly increasing order, so no key is
      visited twice. */
  lemma {:induction false} KeysUpToSorted(mask: string, p: nat)
    requires p <= |mask|
    ensures forall i, j :: 0 <= i < j < |KeysUpTo(mask, p)| ==> KeyLess(KeysUpTo(mask, p)[i], KeysUpTo(mask, p)[j])
    ensures forall i :: 0 <= i < |KeysUpTo(mask, p)| ==> KeysUpTo(mask, p)[i].0 < p
  {
    if p > 0 {
      KeysUpToSorted(mask, p - 1);
      var prev := KeysUpTo(mask, p - 1);
      var ks := KeysUpTo(mask, p);
      assert forall i :: 0 <= i < |prev| ==> ks[i] == prev[i];
      assert forall i :: |prev| <= i < |ks| ==> ks[i] == (p - 1, i - |prev|);
    }
  }

  /** Sixteen keys for every blank position. */
  lemma {:induction false} KeysUpToCount(mask: string, p: nat)
    requires p <= |mask|
    ensures |KeysUpTo(mask, p)| == 16 * |set q | 0 <= q < p && mask[q] == ' '|
  {
    if p > 0 {
      KeysUpToCount(mask, p - 1);
      var before := set q | 0 <= q < p - 1 && mask[q] == ' ';
      var now := set q | 0 <= q < p && mask[q] == ' ';
      if mask[p - 1] == ' ' {
        assert now == before + {p - 1};
      } else {
        assert now == before;
      }
    }
  }

  /** The loops visit positions in order: the keys up to p are the first
      keys up to any later q. */
  lemma {:induction false} KeysUpToPrefix(mask: string, p: nat, q: nat)
    requires p <= q <= |mask|
    ensures KeysUpTo(mask, p) <= KeysUpTo(mask, q)
  {
    if p < q {
      KeysUpToPrefix(mask, p, q - 1);
      var a := KeysUpTo(mask, p);
      var b := KeysUpTo(mask, q - 1);
      var more := if mask[q - 1] == ' ' then DigitKeys(q - 1, 16) else [];
      assert (b + more)[..|a|] == b[..|a|];
    }
  }
}
