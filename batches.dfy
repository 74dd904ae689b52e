/** `stream_users_in_batches` and `batch_processing`: the coerced table is
    cut into batches of `batchSize` rows (the last one possibly shorter),
    and the batches are then flattened and filtered on `age > 25`. */
module Batches {
  import opened Users
  import Arith

  /** Reference chunking: full batches of `n` from the front, then the
      non-empty remainder.  A size the buffer can never reach (`n <= 0`)
      leaves the whole input in one batch. */
  function Chunks<T>(s: seq<T>, n: int): seq<seq<T>>
    decreases |s|
  {
    if s == [] then []
    else if n <= 0 || |s| <= n then [s]
    else [s[..n]] + Chunks(s[n..], n)
  }

  /** What a batch stream of `s` with batch size `n` must look like: the
      batches concatenate to `s`, none is empty, none is longer than `n`,
      and every batch but the last holds exactly `n` rows. */
  predicate IsBatching<T(==)>(bs: seq<seq<T>>, s: seq<T>, n: int)
  {
    && Flatten(bs) == s
    && (forall i | 0 <= i < |bs| :: |bs[i]| > 0)
    && (forall i | 0 <= i < |bs| :: n > 0 ==> |bs[i]| <= n)
    && (forall i | 0 <= i < |bs| - 1 :: |bs[i]| == n)
  }

  lemma {:induction false} ChunksIsBatching<T>(s: seq<T>, n: int)
    ensures IsBatching(Chunks(s, n), s, n)
    decreases |s|
  {
    var c := Chunks(s, n);
    if s == [] {
    } else if n <= 0 || |s| <= n {
      assert c == [s];
      assert Flatten(c) == s + Flatten(c[1..]);
      assert c[1..] == [];
    } else {
      ChunksIsBatching(s[n..], n);
      var rest := Chunks(s[n..], n);
      assert c == [s[..n]] + rest;
      assert c[1..] == rest;
      assert Flatten(c) == s[..n] + Flatten(rest);
      assert s[..n] + s[n..] == s;
      assert rest != [];
      forall i | 0 <= i < |c| - 1 ensures |c[i]| == n {
        if i > 0 { assert c[i] == rest[i - 1]; }
      }
    }
  }

  /** The batching is unique: any sequence of batches shaped as
      `IsBatching` demands is exactly `Chunks`. */
  lemma {:induction false} BatchingIsUnique<T>(bs: seq<seq<T>>, s: seq<T>, n: int)
    requires IsBatching(bs, s, n)
    ensures bs == Chunks(s, n)
    decreases |bs|
  {
    if bs == [] {
    } else {
      var tail := bs[1..];
      assert Flatten(bs) == bs[0] + Flatten(tail);
      if tail == [] {
        assert s == bs[0];
        assert bs == [s];
      } else {
        assert |bs[0]| == n;
        assert IsBatching(tail, Flatten(tail), n) by {
          forall i | 0 <= i < |tail| ensures |tail[i]| > 0 && (n > 0 ==> |tail[i]| <= n) {
            assert tail[i] == bs[i + 1];
          }
          forall i | 0 <= i < |tail| - 1 ensures |tail[i]| == n {
            assert tail[i] == bs[i + 1];
          }
        }
        BatchingIsUnique(tail, Flatten(tail), n);
        assert |tail[0]| > 0;
        assert Flatten(tail) == tail[0] + Flatten(tail[1..]);
        assert |s| > n;
        assert s[..n] == bs[0] && s[n..] == Flatten(tail);
        assert bs == [bs[0]] + tail;
      }
    }
  }

  /** For a positive size there are ceil(|s| / n) batches. */
  lemma {:induction false} ChunksCount<T>(s: seq<T>, n: int)
    requires n > 0
    ensures |Chunks(s, n)| == (|s| + n - 1) / n
    decreases |s|
  {
    if s == [] {
      Arith.DivModSmall(n - 1, n);
    } else if |s| <= n {
      Arith.DivModSmall(|s| - 1, n);
      Arith.DivModAddDivisor(|s| - 1, n);
    } else {
      ChunksCount(s[n..], n);
      Arith.DivModAddDivisor(|s| - n + n - 1, n);
    }
  }

  /** For a positive size the last batch holds `|s| % n` rows, or `n` when
      `n` divides `|s|`. */
  lemma {:induction false} ChunksLast<T>(s: seq<T>, n: int)
    requires n > 0 && s != []
    ensures var c := Chunks(s, n);
      |c| > 0 && |c[|c| - 1]| == if |s| % n == 0 then n else |s| % n
    decreases |s|
  {
    if |s| < n {
      Arith.DivModSmall(|s|, n);
    } else if |s| == n {
      Arith.DivModSmall(0, n);
      Arith.DivModAddDivisor(0, n);
    } else {
      ChunksLast(s[n..], n);
      Arith.DivModAddDivisor(|s| - n, n);
      var rest := Chunks(s[n..], n);
      assert Chunks(s, n) == [s[..n]] + rest;
    }
  }

  /** A full leading batch is split off and the rest is chunked on its own. */
  lemma ChunksSplit<T>(s: seq<T>, n: int)
    requires n > 0 && |s| >= n
    ensures Chunks(s, n) == [s[..n]] + Chunks(s[n..], n)
  {
    if |s| == n {
      assert s[..n] == s && s[n..] == [];
    }
  }

  /** Every batching with a positive size has ceil(|s| / n) batches. */
  lemma BatchingCount<T>(bs: seq<seq<T>>, s: seq<T>, n: int)
    requires n > 0 && IsBatching(bs, s, n)
    ensures |bs| == (|s| + n - 1) / n
  {
    BatchingIsUnique(bs, s, n);
    ChunksCount(s, n);
  }

  /** In every batching of a non-empty sequence with a positive size, the
      last batch holds `|s| % n` rows, or `n` when `n` divides `|s|`. */
  lemma BatchingLast<T>(bs: seq<seq<T>>, s: seq<T>, n: int)
    requires n > 0 && s != [] && IsBatching(bs, s, n)
    ensures |bs| > 0 && |bs[|bs| - 1]| == if |s| % n == 0 then n else |s| % n
  {
    BatchingIsUnique(bs, s, n);
    ChunksLast(s, n);
  }

  /** One row is appended to a buffer that was not full; if that fills it,
      the buffer becomes the next batch. */
  lemma BufferPush<T>(batch: seq<T>, x: T, rest: seq<T>, n: int)
    requires n <= 0 || |batch| < n
    ensures batch + ([x] + rest) == (batch + [x]) + rest
    ensures |batch + [x]| == n ==> Chunks((batch + [x]) + rest, n) == [batch + [x]] + Chunks(rest, n)
  {
    var full := batch + [x];
    if |full| == n {
      ChunksSplit(full + rest, n);
      assert (full + rest)[..n] == full;
      assert (full + rest)[n..] == rest;
    }
  }

  /** The state between two rows of the loop in `stream_users_in_batches`:
      the emitted batches and the buffer hold the first `i` rows, the
      buffer is not full, and the emitted batches followed by the chunking
      of the buffer and the unread rows give the chunking of all rows. */
  predicate BufferState<T(==)>(batches: seq<seq<T>>, batch: seq<T>, s: seq<T>, i: int, n: int)
  {
    && 0 <= i <= |s|
    && (n > 0 ==> |batch| < n)
    && Flatten(batches) + batch == s[..i]
    && batches + Chunks(batch + s[i..], n) == Chunks(s, n)
  }

  /** Reading row `i` into the buffer, and emitting the buffer if that
      fills it, keeps `BufferState`. */
  lemma ReadRow<T>(batches: seq<seq<T>>, batch: seq<T>, s: seq<T>, i: int, n: int)
    requires BufferState(batches, batch, s, i, n) && i < |s|
    ensures var full := batch + [s[i]];
      if |full| == n then BufferState(batches + [full], [], s, i + 1, n)
      else BufferState(batches, full, s, i + 1, n)
  {
    var full := batch + [s[i]];
    assert s[i..] == [s[i]] + s[i + 1..];
    assert s[..i + 1] == s[..i] + [s[i]];
    BufferPush(batch, s[i], s[i + 1..], n);
    if |full| == n {
      FlattenAppend(batches, [full]);
      assert Flatten([full]) == full + Flatten([full][1..]);
      assert [] + s[i + 1..] == s[i + 1..];
    }
  }

  /** `stream_users_in_batches(batch_size)` over the rows the cursor returns. */
  method StreamUsersInBatches(table: seq<StoredRow>, batchSize: int) returns (batches: seq<seq<User>>)
    ensures IsBatching(batches, CoerceAll(table), batchSize)
    ensures batchSize <= 0 ==> |batches| == if table == [] then 0 else 1
  {
    ghost var users := CoerceAll(table);
    batches := [];
    var batch: seq<User> := [];
    var i := 0;
    assert batch + users[i..] == users;
    assert Flatten(batches) + batch == users[..i];
    while i < |table|
      invariant BufferState(batches, batch, users, i, batchSize)
    {
      var row := Coerce(table[i]);
      ReadRow(batches, batch, users, i, batchSize);
      batch := batch + [row];
      if |batch| == batchSize {
        batches := batches + [batch];
        batch := [];
      }
      i := i + 1;
    }
    assert batch + users[i..] == batch;
    if batch != [] {
      batches := batches + [batch];
    }
    assert batches == Chunks(users, batchSize);
    ChunksIsBatching(users, batchSize);
  }

  /** The filter threshold hard-coded in `batch_processing`. */
  const AgeThreshold: int := 25

  /** The users strictly older than the threshold, in their original order. */
  function AboveThreshold(us: seq<User>): seq<User>
  {
    if us == [] then []
    else
      var last := us[|us| - 1];
      AboveThreshold(us[..|us| - 1]) + if last.age > AgeThreshold then [last] else []
  }

  /** The positions of `us` whose user is older than the threshold, ascending. */
  function AboveIndices(us: seq<User>): seq<nat>
  {
    if us == [] then []
    else
      var last := |us| - 1;
      AboveIndices(us[..last]) + if us[last].age > AgeThreshold then [last] else []
  }

  /** The recorded positions are positions of `us`, in ascending order,
      and they are exactly those whose age exceeds the threshold. */
  lemma {:induction false} AboveIndicesArePositions(us: seq<User>)
    ensures var idx := AboveIndices(us);
      && (forall k | 0 <= k < |idx| :: idx[k] < |us|)
      && (forall k, l | 0 <= k < l < |idx| :: idx[k] < idx[l])
      && (forall i | 0 <= i < |us| :: i in idx <==> us[i].age > AgeThreshold)
  {
    if us != [] {
      var init := us[..|us| - 1];
      AboveIndicesArePositions(init);
      forall i | 0 <= i < |us| - 1 ensures us[i] == init[i] { }
    }
  }

  /** Entry `k` of the selection is the user at the `k`-th recorded
      position. */
  lemma {:induction false} AboveThresholdAtIndices(us: seq<User>)
    ensures var idx := AboveIndices(us);
      && |AboveThreshold(us)| == |idx|
      && (forall k | 0 <= k < |idx| :: 0 <= idx[k] < |us| && AboveThreshold(us)[k] == us[idx[k]])
  {
    if us != [] {
      var init := us[..|us| - 1];
      AboveThresholdAtIndices(init);
      var idx0 := AboveIndices(init);
      forall k | 0 <= k < |idx0| ensures us[idx0[k]] == init[idx0[k]] { }
    }
  }

  /** `AboveThreshold(us)` is the subsequence of `us` taken at exactly the
      positions whose age exceeds the threshold: those positions, ascending,
      and no others. */
  lemma {:induction false} AboveThresholdIsSubsequence(us: seq<User>)
    ensures var idx := AboveIndices(us);
      && |AboveThreshold(us)| == |idx|
      && (forall k | 0 <= k < |idx| :: idx[k] < |us| && AboveThreshold(us)[k] == us[idx[k]])
      && (forall k, l | 0 <= k < l < |idx| :: idx[k] < idx[l])
      && (forall i | 0 <= i < |us| :: i in idx <==> us[i].age > AgeThreshold)
  {
    AboveIndicesArePositions(us);
    AboveThresholdAtIndices(us);
  }

  /** A user is selected exactly when it is in the input and older than the
      threshold. */
  lemma {:induction false} AboveThresholdMembers(us: seq<User>, u: User)
    ensures u in AboveThreshold(us) <==> u in us && u.age > AgeThreshold
  {
    AboveThresholdIsSubsequence(us);
    var idx := AboveIndices(us);
    if u in us && u.age > AgeThreshold {
      var i :| 0 <= i < |us| && us[i] == u;
      var k :| 0 <= k < |idx| && idx[k] == i;
      assert AboveThreshold(us)[k] == u;
    }
    if u in AboveThreshold(us) {
      var k :| 0 <= k < |AboveThreshold(us)| && AboveThreshold(us)[k] == u;
      assert us[idx[k]] == u;
      assert idx[k] in idx;
    }
  }

  /** Appending one user extends the selection by that user exactly when
      it is older than the threshold. */
  lemma AboveThresholdSnoc(us: seq<User>, u: User)
    ensures AboveThreshold(us + [u]) == AboveThreshold(us) + if u.age > AgeThreshold then [u] else []
  {
    assert (us + [u])[..|us|] == us;
  }

  /** `batch_processing(batch_size)`: every user of every batch, in order,
      that is older than the threshold.  The result does not depend on the
      batch size. */
  method BatchProcessing(table: seq<StoredRow>, batchSize: int) returns (selected: seq<User>)
    ensures selected == AboveThreshold(CoerceAll(table))
  {
    var batches := StreamUsersInBatches(table, batchSize);
    selected := [];
    ghost var seen: seq<User> := [];
    var b := 0;
    while b < |batches|
      invariant 0 <= b <= |batches|
      invariant seen == Flatten(batches[..b])
      invariant selected == AboveThreshold(seen)
    {
      var batch := batches[b];
      var j := 0;
      FlattenPrefixStep(batches, b);
      ghost var next := seen + batch;
      while j < |batch|
        invariant 0 <= j <= |batch|
        invariant seen + batch[j..] == next
        invariant selected == AboveThreshold(seen)
      {
        var user := batch[j];
        AboveThresholdSnoc(seen, user);
        assert batch[j..] == [user] + batch[j + 1..];
        seen := seen + [user];
        if user.age > AgeThreshold {
          selected := selected + [user];
        }
        j := j + 1;
      }
      assert seen == next;
      b := b + 1;
    }
    assert batches[..b] == batches;
  }
}
