/** BlockBuilder (table/block_builder.cc). */
module BlockBuilders {
  import opened Basics
  import opened Coding
  import opened BlockFormat

  class BlockBuilder {
    const interval: nat
    var buffer: Bytes
    var restarts: seq<nat>
    var counter: nat
    var lastKey: Bytes
    // The entries added
    ghost var added: seq<Pair>

    ghost predicate Valid()
      reads this
    {
      && interval > 0
      && buffer == EncodeEntries(added, interval)
      && restarts == Restarts(added, interval)
      && (if added == [] then counter == 0 && lastKey == []
          else counter == (|added| - 1) % interval + 1 && lastKey == added[|added| - 1].key)
    }

    constructor (interval: nat)
      requires interval > 0
      ensures Valid() && added == [] && this.interval == interval
    {
      this.interval := interval;
      buffer, restarts, counter, lastKey, added := [], [0], 0, [], [];
    }

    method Add(key: Bytes, value: Bytes)
      requires Valid()
      modifies this
      ensures Valid() && added == old(added) + [Pair(key, value)]
    {
      hide EncodeEntries, Restarts, EntryBytes, CommonPrefix;
      ghost var es := added + [Pair(key, value)];
      CounterStep(|added|, interval);
      RestartsStep(added, Pair(key, value), interval);
      EncodeStep(added, Pair(key, value), interval);
      NothingShared(key);
      var shared := 0;
      if counter < interval {
        // See how much sharing to do with previous string
        shared := SharedPrefix(lastKey, key);
      } else {
        // Restart compression
        restarts := restarts + [|buffer|];
        counter := 0;
      }
      buffer := buffer + EntryBytes(shared, Pair(key, value));
      lastKey := lastKey[..shared] + key[shared..];
      counter := counter + 1;
      added := es;
    }

    method SharedPrefix(a: Bytes, b: Bytes) returns (shared: nat)
      ensures shared == CommonPrefix(a, b)
    {
      var minLength := if |a| < |b| then |a| else |b|;
      shared := 0;
      while shared < minLength && a[shared] == b[shared]
        invariant shared <= minLength
        invariant CommonPrefix(a, b) == shared + CommonPrefix(a[shared..], b[shared..])
      {
        shared := shared + 1;
      }
    }

    method Finish() returns (r: Bytes)
      requires Valid()
      modifies this`buffer
      ensures r == buffer == Block(added, interval)
    {
      hide EncodeEntries, Fixed32;
      ghost var entries := buffer;
      for i := 0 to |restarts|
        invariant buffer == entries + FixedAll(restarts[..i])
      {
        assert restarts[..i + 1][..i] == restarts[..i];
        buffer := buffer + Fixed32(restarts[i]);
      }
      assert restarts[..|restarts|] == restarts;
      buffer := buffer + Fixed32(|restarts|);
      r := buffer;
    }
  }

  lemma NothingShared(key: Bytes)
    ensures CommonPrefix([], key) == 0
  {
  }

  // A restart point comes when the counter has reached the interval.
  lemma CounterStep(n: nat, interval: nat)
    requires interval > 0
    ensures n > 0 && (n - 1) % interval + 1 == interval ==>
      n % interval == 0 && NumRestarts(n + 1, interval) == NumRestarts(n, interval) + 1
    ensures n > 0 && (n - 1) % interval + 1 < interval ==>
      n % interval == (n - 1) % interval + 1 && NumRestarts(n + 1, interval) == NumRestarts(n, interval)
  {
    if n > 0 {
      var q, r := (n - 1) / interval, (n - 1) % interval;
      assert n - 1 == q * interval + r;
      if r + 1 == interval {
        DivisionIs(n, interval, q + 1, 0);
      } else {
        DivisionIs(n, interval, q, r + 1);
      }
    }
  }

  lemma DivisionIs(n: nat, d: nat, q: nat, r: nat)
    requires d > 0 && n == q * d + r && r < d
    ensures n / d == q && n % d == r
  {
    var q', r' := n / d, n % d;
    assert n == q' * d + r';
    if q < q' {
      MultiplyMonotone(q + 1, q', d);
      assert false;
    } else if q' < q {
      MultiplyMonotone(q' + 1, q, d);
      assert false;
    }
  }

  lemma EncodeStep(es: seq<Pair>, p: Pair, interval: nat)
    requires interval > 0
    ensures EncodeEntries(es + [p], interval) == EncodeEntries(es, interval) +
      EntryBytes(if |es| % interval == 0 then 0 else CommonPrefix(es[|es| - 1].key, p.key), p)
  {
    hide EntryBytes, CommonPrefix;
    var all := es + [p];
    assert all[..|all| - 1] == es && all[|all| - 1] == p;
    assert es != [] ==> all[|all| - 2] == es[|es| - 1];
  }

  lemma RestartKept(es: seq<Pair>, p: Pair, interval: nat, k: nat)
    requires interval > 0 && k < NumRestarts(|es|, interval) <= NumRestarts(|es| + 1, interval)
    ensures k < |Restarts(es, interval)| && k < |Restarts(es + [p], interval)|
    ensures Restarts(es + [p], interval)[k] == Restarts(es, interval)[k]
  {
    hide EncodeEntries, NumRestarts, Restarts;
    RestartBounds(|es|, interval, k);
    assert (es + [p])[..k * interval] == es[..k * interval];
    RestartsAt(es, interval, k);
    RestartsAt(es + [p], interval, k);
  }

  lemma NewRestart(n: nat, interval: nat)
    requires interval > 0
    ensures NumRestarts(n, interval) <= NumRestarts(n + 1, interval) <= NumRestarts(n, interval) + 1
    ensures NumRestarts(n, interval) < NumRestarts(n + 1, interval) ==> NumRestarts(n, interval) * interval == n
  {
    CounterStep(n, interval);
    if n > 0 {
      assert n - 1 == (n - 1) / interval * interval + (n - 1) % interval;
    }
  }

  lemma RestartsStep(es: seq<Pair>, p: Pair, interval: nat)
    requires interval > 0
    ensures Restarts(es + [p], interval) ==
      if NumRestarts(|es| + 1, interval) > NumRestarts(|es|, interval) then
        Restarts(es, interval) + [|EncodeEntries(es, interval)|]
      else Restarts(es, interval)
  {
    var n, m := NumRestarts(|es|, interval), NumRestarts(|es| + 1, interval);
    var before, after := Restarts(es, interval), Restarts(es + [p], interval);
    NewRestart(|es|, interval);
    hide EncodeEntries, NumRestarts, RestartOffset, Restarts;
    RestartsLength(es, interval);
    RestartsLength(es + [p], interval);
    forall k | 0 <= k < n ensures after[k] == before[k] {
      RestartKept(es, p, interval, k);
    }
    Extends(before, after);
    if m > n {
      LastRestart(es, p, interval);
      RestartsAt(es + [p], interval, n);
    }
  }

  lemma Extends(a: seq<nat>, b: seq<nat>)
    requires |a| <= |b| <= |a| + 1 && forall k :: 0 <= k < |a| ==> b[k] == a[k]
    ensures b == if |b| > |a| then a + [b[|a|]] else a
  {
  }

  lemma LastRestart(es: seq<Pair>, p: Pair, interval: nat)
    requires interval > 0 && NumRestarts(|es|, interval) * interval == |es|
    requires NumRestarts(|es|, interval) < NumRestarts(|es| + 1, interval)
    ensures RestartOffset(es + [p], interval, NumRestarts(|es|, interval)) == |EncodeEntries(es, interval)|
  {
    hide EncodeEntries, NumRestarts;
    assert (es + [p])[..|es|] == es;
  }
}
