/** Memory as 64-bit words by address. A word that was never written reads as 0. */
module Memory {

  type Words = map<nat, nat>

  function Read(m: Words, a: nat): nat {
    if a in m then m[a] else 0
  }

  /** The n consecutive words from address a upwards. */
  function Slice(m: Words, a: nat, n: nat): (s: seq<nat>)
    ensures |s| == n
    ensures forall k :: 0 <= k < n ==> s[k] == Read(m, a + 8 * k)
  {
    if n == 0 then [] else Slice(m, a, n - 1) + [Read(m, a + 8 * (n - 1))]
  }

  /** Words written upwards from address a. */
  function Store(m: Words, a: nat, words: seq<nat>): Words
    decreases |words|
  {
    if words == [] then m else Store(m, a + 8, words[1..])[a := words[0]]
  }

  lemma StoreNothing(m: Words, a: nat)
    ensures Store(m, a, []) == m
  {
  }

  /** The words with an address in [from, to) are the same in both memories. */
  ghost predicate SameBetween(m: Words, m': Words, from: nat, to: nat) {
    forall a: nat :: from <= a < to ==> Read(m', a) == Read(m, a)
  }

  /** `Store` changes exactly the words it is given. */
  lemma {:induction false} StoreReads(m: Words, a: nat, words: seq<nat>)
    ensures Slice(Store(m, a, words), a, |words|) == words
    ensures forall b: nat :: b < a || a + 8 * |words| <= b ==> Read(Store(m, a, words), b) == Read(m, b)
    decreases |words|
  {
    if words != [] {
      StoreReads(m, a + 8, words[1..]);
      var above, all := Store(m, a + 8, words[1..]), Store(m, a, words);
      forall k | 0 <= k < |words|
        ensures Slice(all, a, |words|)[k] == words[k]
      {
        if k > 0 {
          assert Read(all, a + 8 * k) == Read(above, a + 8 + 8 * (k - 1));
          assert Slice(above, a + 8, |words| - 1)[k - 1] == words[k];
        }
      }
    }
  }

  /** The last word of a `Store` can be written first. */
  lemma {:induction false} StoreSnoc(m: Words, a: nat, words: seq<nat>, last: nat)
    ensures Store(m, a, words + [last]) == Store(m[a + 8 * |words| := last], a, words)
    decreases |words|
  {
    if words == [] {
      assert (words + [last])[1..] == [];
    } else {
      StoreSnoc(m, a + 8, words[1..], last);
      assert (words + [last])[1..] == words[1..] + [last];
    }
  }

  /** Adjacent stores, upper words first. */
  lemma {:induction false} StoreAppend(m: Words, a: nat, below: seq<nat>, above: seq<nat>)
    ensures Store(m, a, below + above) == Store(Store(m, a + 8 * |below|, above), a, below)
    decreases |below|
  {
    if below == [] {
      assert below + above == above;
    } else {
      StoreAppend(m, a + 8, below[1..], above);
      assert (below + above)[1..] == below[1..] + above;
    }
  }

  /** Words in a range that two memories agree on. */
  lemma SliceSame(m: Words, m': Words, from: nat, to: nat, a: nat, n: nat)
    requires SameBetween(m, m', from, to) && from <= a && a + 8 * n <= to + 7
    ensures Slice(m', a, n) == Slice(m, a, n)
  {
    forall k | 0 <= k < n
      ensures Slice(m', a, n)[k] == Slice(m, a, n)[k]
    {
      assert a + 8 * k < to;
    }
  }
}
