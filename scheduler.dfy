/**
 * The stride-partitioned workers (`process_thread`) and the pool that runs
 * them (`process_corpus`). Worker `k` of `n` handles the indices
 * k, k + n, k + 2n, ... of the corpus and writes each result into its own
 * slot of a shared, pre-sized list. The pool is modelled as the workers run
 * one after another: their slot sets are disjoint (`StridePartition`), so the
 * order of their writes cannot change the final list.
 */
module Scheduler {
  import opened Wrappers
  import opened Tokenize

  /** Worker `k` of `n` writes slot `i`. */
  predicate Owns(k: nat, n: nat, i: nat)
    requires n >= 1
  {
    k <= i && (i - k) % n == 0
  }

  lemma MulAtLeast(d: int, n: int)
    requires n >= 1 && d >= 1
    ensures d * n >= n
  {
    if d > 1 {
      MulAtLeast(d - 1, n);
      assert d * n == (d - 1) * n + n;
    }
  }

  /** Euclidean division is unique: `a == q * n + r` with `0 <= r < n` fixes both. */
  lemma DivUnique(a: int, n: int, q: int, r: int)
    requires n >= 1 && 0 <= r < n && a == q * n + r
    ensures a % n == r && a / n == q
  {
    var q', r' := a / n, a % n;
    assert a == q' * n + r';
    assert (q - q') * n == r' - r;
    if q - q' >= 1 {
      MulAtLeast(q - q', n);
    } else if q' - q >= 1 {
      MulAtLeast(q' - q, n);
    }
  }

  /** Between two consecutive slots of a worker there is no other slot of it. */
  lemma OwnsGap(k: nat, n: nat, i: nat, j: nat)
    requires n >= 1 && Owns(k, n, i) && i < j < i + n
    ensures !Owns(k, n, j)
  {
    var q := (i - k) / n;
    assert i - k == q * n + (i - k) % n;
    DivUnique(j - k, n, q, j - i);
  }

  /** The next slot of a worker is `n` further on. */
  lemma OwnsNext(k: nat, n: nat, i: nat)
    requires n >= 1 && Owns(k, n, i)
    ensures Owns(k, n, i + n)
  {
    var q := (i - k) / n;
    assert i - k == q * n + (i - k) % n;
    DivUnique(i + n - k, n, q + 1, 0);
  }

  /**
   * Among workers 0..n-1, slot `i` belongs to worker `i % n` and to no
   * other: the slot sets cover every index and are pairwise disjoint.
   */
  lemma StridePartition(n: nat, k: nat, i: nat)
    requires n >= 1 && k < n
    ensures Owns(k, n, i) <==> k == i % n
  {
    var q := i / n;
    assert i == q * n + i % n;
    if k == i % n {
      assert q >= 0 by {
        if q < 0 {
          MulAtLeast(-q, n);
        }
      }
      DivUnique(i - k, n, q, 0);
    }
    if Owns(k, n, i) {
      var q' := (i - k) / n;
      assert i - k == q' * n + (i - k) % n;
      DivUnique(i, n, q', k);
    }
  }

  /**
   * `process_thread(k, n, corpus, slots)`: the `while` loop that steps its
   * index by `n`. Exactly the slots `Owns(k, n, i)` are written, each with
   * the tokens of its own document; all other slots keep what they held.
   */
  method ProcessThread(k: nat, n: nat, corpus: seq<string>, slots: array<Option<seq<string>>>, c: Config)
    requires n >= 1
    requires slots.Length == |corpus|
    modifies slots
    ensures forall i :: 0 <= i < |corpus| ==>
              slots[i] == if Owns(k, n, i) then Some(ProcessText(corpus[i], c)) else old(slots[i])
    ensures k >= |corpus| ==> slots[..] == old(slots[..])
  {
    var i := k;
    while i < |corpus|
      invariant Owns(k, n, i)
      invariant forall j :: 0 <= j < |corpus| ==>
                  slots[j] == if Owns(k, n, j) && j < i then Some(ProcessText(corpus[j], c)) else old(slots[j])
      decreases |corpus| - i
    {
      slots[i] := Some(ProcessText(corpus[i], c));
      forall j | i < j < i + n {
        OwnsGap(k, n, i, j);
      }
      OwnsNext(k, n, i);
      i := i + n;
    }
  }

  /**
   * `process_corpus(corpus)` with `n` workers (the source fixes `n` at 5):
   * a list of `len(corpus)` empty slots, then workers 0..n-1.
   * With at least one worker, slot `i` ends up holding
   * `process_text(corpus[i])`, whatever `n` is; with none, every slot stays empty.
   */
  method ProcessCorpus(corpus: seq<string>, n: nat, c: Config) returns (result: seq<Option<seq<string>>>)
    ensures |result| == |corpus|
    ensures forall i :: 0 <= i < |corpus| ==>
              result[i] == if n >= 1 then Some(ProcessText(corpus[i], c)) else None
  {
    var slots := new Option<seq<string>>[|corpus|](_ => None);
    for k := 0 to n
      invariant forall i :: 0 <= i < |corpus| ==>
                  slots[i] == if n >= 1 && i % n < k then Some(ProcessText(corpus[i], c)) else None
    {
      ProcessThread(k, n, corpus, slots, c);
      forall i | 0 <= i < |corpus| {
        StridePartition(n, k, i);
      }
    }
    result := slots[..];
  }
}
