/** `entry2buttonshash` (lib/dialogbind.rb and dialogbind.rb): numbers the
    entries of an array by their position and stores each as a button label
    with that number as its code. */
module ButtonsHash {
  import opened Text
  import opened OrderedHash

  /** The hash after the first `|es|` entries have been stored. */
  function EntriesHash(es: seq<string>): seq<(string, int)>
  {
    if es == [] then [] else Store(EntriesHash(es[..|es| - 1]), es[|es| - 1], |es| - 1)
  }

  /** The loop of `entry2buttonshash`: `hash[entry] = count`, then
      `count += 1`, entry by entry. */
  method EntryToButtonsHash(entries: seq<string>) returns (hash: seq<(string, int)>)
    ensures hash == EntriesHash(entries)
    ensures IsHash(hash)
  {
    hash := [];
    var count := 0;
    var i := 0;
    while i < |entries|
      invariant 0 <= i <= |entries|
      invariant count == i
      invariant hash == EntriesHash(entries[..i])
      invariant IsHash(hash)
    {
      assert entries[..i + 1][..i] == entries[..i];
      StoreKeepsHash(hash, entries[i], count);
      hash := Store(hash, entries[i], count);
      count := count + 1;
      i := i + 1;
    }
    assert entries[..i] == entries;
  }

  /** The entries without repetitions, each where it first occurs. */
  function Dedup(es: seq<string>): (d: seq<string>)
    ensures forall x :: x in d <==> x in es
  {
    if es == [] then []
    else if es[|es| - 1] in Dedup(es[..|es| - 1]) then Dedup(es[..|es| - 1])
    else Dedup(es[..|es| - 1]) + [es[|es| - 1]]
  }

  /** The position of the last occurrence of `x`. */
  function LastIndex(es: seq<string>, x: string): (n: nat)
    requires x in es
    ensures n < |es| && es[n] == x
    ensures forall p :: n < p < |es| ==> es[p] != x
  {
    if es[|es| - 1] == x then |es| - 1 else LastIndex(es[..|es| - 1], x)
  }

  /** The hash's keys are the entries in order of first occurrence: a
      repeated entry keeps the place it was first stored at. */
  lemma {:induction false} EntriesHashKeys(es: seq<string>)
    ensures IsHash(EntriesHash(es))
    ensures Keys(EntriesHash(es)) == Dedup(es)
  {
    if es != [] {
      var init := es[..|es| - 1];
      var h := EntriesHash(init);
      EntriesHashKeys(init);
      StoreKeepsHash(h, es[|es| - 1], |es| - 1);
      StoreKeys(h, es[|es| - 1], |es| - 1);
      assert Position(h, es[|es| - 1]).Some? <==> es[|es| - 1] in Keys(h);
    }
  }

  /** Every entry maps to the index of its last occurrence, and nothing else
      is a key. */
  lemma {:induction false} EntriesHashLookup(es: seq<string>, x: string)
    ensures Lookup(EntriesHash(es), x) == if x in es then Some(LastIndex(es, x) as int) else None
  {
    if es != [] {
      var init := es[..|es| - 1];
      EntriesHashLookup(init, x);
      if es[|es| - 1] == x {
        EntriesHashKeys(init);
        StoreKeepsHash(EntriesHash(init), x, |es| - 1);
      } else {
        StoreOther(EntriesHash(init), es[|es| - 1], |es| - 1, x);
        assert x in es <==> x in init;
      }
    }
  }

  /** Distinct entries are numbered 0 to n - 1 in order, one key each. */
  lemma {:induction false} DistinctEntries(es: seq<string>)
    requires forall p, q :: 0 <= p < q < |es| ==> es[p] != es[q]
    ensures |EntriesHash(es)| == |es|
    ensures forall i :: 0 <= i < |es| ==> EntriesHash(es)[i] == (es[i], i)
  {
    if es != [] {
      var init := es[..|es| - 1];
      DistinctEntries(init);
      var h := EntriesHash(init);
      var last := es[|es| - 1];
      assert forall p :: 0 <= p < |h| ==> h[p].0 != last by {
        forall p | 0 <= p < |h| ensures h[p].0 != last {
          assert h[p].0 == init[p] == es[p];
        }
      }
      assert EntriesHash(es) == h + [(last, |es| - 1)];
      forall i | 0 <= i < |init| ensures EntriesHash(es)[i] == (es[i], i) {
        assert EntriesHash(es)[i] == h[i];
        assert init[i] == es[i];
      }
    }
  }
}
