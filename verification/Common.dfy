/** Datatypes and sequence facts shared by the other modules. */
module Common {

  datatype Option<+T> = None | Some(value: T)

  /** PHP's array_chunk: consecutive pieces of n elements, the last one possibly shorter. */
  function Chunks<T>(s: seq<T>, n: nat): seq<seq<T>>
    requires 0 < n
  {
    if s == [] then []
    else if |s| <= n then [s]
    else [s[..n]] + Chunks(s[n..], n)
  }

  function Concat<T>(ss: seq<seq<T>>): seq<T> {
    if ss == [] then [] else ss[0] + Concat(ss[1..])
  }

  lemma {:induction false} ConcatSnoc<T>(ss: seq<seq<T>>, s: seq<T>)
    ensures Concat(ss + [s]) == Concat(ss) + s
  {
    if ss == [] {
      assert ss + [s] == [s] && [s][1..] == [];
    } else {
      assert (ss + [s])[1..] == ss[1..] + [s];
      ConcatSnoc(ss[1..], s);
    }
  }

  /** Nothing is lost or reordered. */
  lemma {:induction false} ConcatChunks<T>(s: seq<T>, n: nat)
    requires 0 < n
    ensures Concat(Chunks(s, n)) == s
  {
    if s == [] {
    } else if |s| <= n {
      assert [s][1..] == [];
    } else {
      ConcatChunks(s[n..], n);
      assert ([s[..n]] + Chunks(s[n..], n))[1..] == Chunks(s[n..], n);
      assert s == s[..n] + s[n..];
    }
  }

  /** Every piece but the last is full. */
  lemma {:induction false} ChunkSize<T>(s: seq<T>, n: nat, k: nat)
    requires 0 < n && k < |Chunks(s, n)|
    ensures 0 < |Chunks(s, n)[k]| <= n
    ensures k < |Chunks(s, n)| - 1 ==> |Chunks(s, n)[k]| == n
  {
    if |s| > n && k > 0 {
      ChunkSize(s[n..], n, k - 1);
      assert Chunks(s, n)[k] == Chunks(s[n..], n)[k - 1];
    } else if |s| > n {
      assert Chunks(s, n)[0] == s[..n];
    }
  }

  /** As many pieces as it takes, for the sizes in use. */
  lemma {:induction false} ChunkCount<T>(s: seq<T>, n: nat)
    requires n == 500 || n == 5000 || n == 10000
    ensures n == 500 ==> |Chunks(s, n)| == (|s| + 499) / 500
    ensures n == 5000 ==> |Chunks(s, n)| == (|s| + 4999) / 5000
    ensures n == 10000 ==> |Chunks(s, n)| == (|s| + 9999) / 10000
  {
    if |s| > n {
      ChunkCount(s[n..], n);
    }
  }

  /** A buffer that is flushed whenever it holds n elements produces exactly the chunks. */
  lemma {:induction false} ChunksOfFull<T>(full: seq<seq<T>>, rest: seq<T>, n: nat)
    requires 0 < n
    requires forall k | 0 <= k < |full| :: |full[k]| == n
    ensures Chunks(Concat(full) + rest, n) == full + Chunks(rest, n)
  {
    if full == [] {
      assert Concat(full) + rest == rest;
    } else {
      var first, others := full[0], full[1..];
      ChunksOfFull(others, rest, n);
      ChunksCons(first, Concat(others) + rest, n);
      assert Concat(full) + rest == first + (Concat(others) + rest);
      assert full + Chunks(rest, n) == [first] + (others + Chunks(rest, n));
    }
  }

  lemma ChunksCons<T>(first: seq<T>, tail: seq<T>, n: nat)
    requires |first| == n > 0
    ensures Chunks(first + tail, n) == [first] + Chunks(tail, n)
  {
    if tail == [] {
      assert first + tail == first;
    } else {
      assert (first + tail)[..n] == first && (first + tail)[n..] == tail;
    }
  }

  lemma {:induction false} ChunksMembers<T>(s: seq<T>, n: nat)
    requires 0 < n
    ensures forall k, x | 0 <= k < |Chunks(s, n)| && x in Chunks(s, n)[k] :: x in s
  {
    if |s| > n {
      ChunksMembers(s[n..], n);
      var chunks := Chunks(s, n);
      forall k, x | 0 <= k < |chunks| && x in chunks[k] ensures x in s {
        if k == 0 {
          assert x in s[..n];
        } else {
          assert chunks[k] == Chunks(s[n..], n)[k - 1];
          assert x in s[n..];
        }
      }
    }
  }
}
