/** The filter block of a table (table/filter_block.cc). */
module FilterBlock {
  import opened Basics
  import opened Coding
  import opened BlockFormat

  // A filter for each 2 KB of data
  const FILTER_BASE_LG: nat := 11
  const FILTER_BASE: nat := 2048

  datatype FilterPolicy = FilterPolicy(create: seq<Bytes> -> Bytes, mayMatch: (Bytes, Bytes) -> bool)

  ghost predicate NoFalseNegatives(policy: FilterPolicy) {
    forall keys: seq<Bytes>, k: Bytes :: k in keys ==> policy.mayMatch(k, policy.create(keys))
  }

  // The filter of some keys; none is made for no keys.
  function FilterOf(policy: FilterPolicy, keys: seq<Bytes>): Bytes {
    if keys == [] then [] else policy.create(keys)
  }

  function Filters(policy: FilterPolicy, groups: seq<seq<Bytes>>): Bytes {
    if groups == [] then [] else Filters(policy, groups[..|groups| - 1]) + FilterOf(policy, groups[|groups| - 1])
  }

  function FilterOffsets(policy: FilterPolicy, groups: seq<seq<Bytes>>): (r: seq<nat>)
    ensures |r| == |groups|
  {
    if groups == [] then []
    else FilterOffsets(policy, groups[..|groups| - 1]) + [|Filters(policy, groups[..|groups| - 1])|]
  }

  // The finished block, for the keys of each 2 KB.
  function Contents(policy: FilterPolicy, groups: seq<seq<Bytes>>): Bytes {
    var filters := Filters(policy, groups);
    filters + (FixedAll(FilterOffsets(policy, groups) + [|filters|]) + [FILTER_BASE_LG])
  }

  // ----- the builder -----------------------------------------------------------------------

  // Keys laid end to end, and where each starts.
  function Flat(keys: seq<Bytes>): Bytes {
    if keys == [] then [] else Flat(keys[..|keys| - 1]) + keys[|keys| - 1]
  }

  function Starts(keys: seq<Bytes>): (r: seq<nat>)
    ensures |r| == |keys|
  {
    if keys == [] then [] else Starts(keys[..|keys| - 1]) + [|Flat(keys[..|keys| - 1])|]
  }

  class FilterBlockBuilder {
    const policy: FilterPolicy
    var keys: Bytes
    var start: seq<nat>
    var result: Bytes
    var filterOffsets: seq<nat>
    // The keys of each filter made, those waiting for one, and everything added
    // so far under the offset of its block
    ghost var groups: seq<seq<Bytes>>
    ghost var pending: seq<Bytes>
    ghost var added: set<(nat, Bytes)>

    ghost predicate Valid()
      reads this
    {
      && keys == Flat(pending) && start == Starts(pending)
      && result == Filters(policy, groups) && filterOffsets == FilterOffsets(policy, groups)
      && forall p :: p in added ==> Held(p.0 / FILTER_BASE, p.1)
    }

    // The key is in the filter with the index, or will be.
    ghost predicate Held(index: nat, key: Bytes)
      reads this
    {
      if index < |groups| then key in groups[index] else index == |groups| && key in pending
    }

    constructor (policy: FilterPolicy)
      ensures Valid() && this.policy == policy && groups == [] && added == {} && pending == []
    {
      this.policy := policy;
      keys, start, result, filterOffsets := [], [], [], [];
      groups, pending, added := [], [], {};
    }

    // A block begins at an offset; offsets do not decrease.
    method StartBlock(blockOffset: nat)
      requires Valid() && blockOffset / FILTER_BASE >= |filterOffsets|
      modifies this
      ensures Valid() && |groups| == blockOffset / FILTER_BASE && added == old(added)
    {
      var filterIndex := blockOffset / FILTER_BASE;
      while filterIndex > |filterOffsets|
        invariant Valid() && filterIndex >= |filterOffsets| && added == old(added)
      {
        GenerateFilter();
      }
    }

    // Adds a key of the block that has begun.
    method AddKey(key: Bytes, ghost blockOffset: nat)
      requires Valid() && |groups| == blockOffset / FILTER_BASE
      modifies this
      ensures Valid() && groups == old(groups) && added == old(added) + {(blockOffset, key)}
    {
      assert (pending + [key])[..|pending|] == pending;
      start := start + [|keys|];
      keys := keys + key;
      pending := pending + [key];
      added := added + {(blockOffset, key)};
    }

    method GenerateFilter()
      requires Valid()
      modifies this
      ensures Valid() && groups == old(groups) + [old(pending)] && pending == [] && added == old(added)
    {
      hide NoFalseNegatives, FilterOf;
      GroupAdded(policy, groups, pending);
      NoPending(pending);
      filterOffsets := filterOffsets + [|result|];
      if |start| > 0 {
        // Make list of keys from flattened key structure
        var tmpKeys := Unflatten(keys, start, pending);
        result := result + policy.create(tmpKeys);
        keys, start := [], [];
      }
      groups := groups + [pending];
      pending := [];
    }

    method Finish() returns (r: Bytes)
      requires Valid()
      modifies this
      ensures groups == old(groups) + (if old(pending) == [] then [] else [old(pending)])
      ensures r == Contents(policy, groups)
      ensures forall p :: p in old(added) ==> p.0 / FILTER_BASE < |groups| && p.1 in groups[p.0 / FILTER_BASE]
    {
      hide FixedAll, Fixed32, Filters, FilterOffsets, Flat, FilterOf;
      if |start| > 0 {
        GenerateFilter();
      }
      assert forall p :: p in old(added) ==> Held(p.0 / FILTER_BASE, p.1);
      // Append array of per-filter offsets
      var arrayOffset := |result|;
      var offsets := FixedWords(filterOffsets);
      LastWord(filterOffsets, arrayOffset);
      result := result + offsets + Fixed32(arrayOffset) + [FILTER_BASE_LG];
      r := result;
      assert r == Filters(policy, groups) + (offsets + Fixed32(arrayOffset) + [FILTER_BASE_LG]);
    }
  }

  lemma GroupAdded(policy: FilterPolicy, groups: seq<seq<Bytes>>, keys: seq<Bytes>)
    ensures Filters(policy, groups + [keys]) == Filters(policy, groups) + if keys == [] then [] else policy.create(keys)
    ensures FilterOffsets(policy, groups + [keys]) == FilterOffsets(policy, groups) + [|Filters(policy, groups)|]
  {
    assert (groups + [keys])[..|groups|] == groups;
  }

  lemma NoPending(keys: seq<Bytes>)
    ensures keys == [] ==> Flat(keys) == [] && Starts(keys) == []
    ensures Flat([]) == [] && Starts([]) == []
  {
  }

  method FixedWords(vs: seq<nat>) returns (r: Bytes)
    ensures r == FixedAll(vs)
  {
    hide Fixed32;
    r := [];
    for i := 0 to |vs|
      invariant r == FixedAll(vs[..i])
    {
      assert vs[..i + 1][..i] == vs[..i];
      r := r + Fixed32(vs[i]);
    }
    assert vs[..|vs|] == vs;
  }

  lemma LastWord(vs: seq<nat>, v: nat)
    ensures FixedAll(vs + [v]) == FixedAll(vs) + Fixed32(v)
  {
    assert (vs + [v])[..|vs|] == vs;
    hide Fixed32;
  }

  method Unflatten(flat: Bytes, start: seq<nat>, ghost keys: seq<Bytes>) returns (r: seq<Bytes>)
    requires flat == Flat(keys) && start == Starts(keys)
    ensures r == keys
  {
    r := [];
    for i := 0 to |start|
      invariant r == keys[..i]
    {
      KeyAt(keys, i);
      var limit := if i + 1 < |start| then start[i + 1] else |flat|;
      r := r + [flat[start[i]..limit]];
    }
  }

  lemma {:induction false} KeyAt(keys: seq<Bytes>, i: nat)
    requires i < |keys|
    ensures var limit := if i + 1 < |keys| then Starts(keys)[i + 1] else |Flat(keys)|;
      Starts(keys)[i] <= limit <= |Flat(keys)| && Flat(keys)[Starts(keys)[i]..limit] == keys[i]
  {
    var last := |keys| - 1;
    if i < last {
      KeyAt(keys[..last], i);
    }
  }

  // ----- the reader --------------------------------------------------------------------------

  datatype FilterBlockReader = FilterBlockReader(data: Bytes, offset: nat, num: nat, baseLg: nat)

  // What is not a filter block has no filters.
  function Open(contents: Bytes): (r: FilterBlockReader)
    ensures r.num > 0 ==> r.offset + 4 * r.num + 5 <= |r.data|
  {
    var n := |contents|;
    if n < 5 then FilterBlockReader([], 0, 0, 0)
    else
      var lastWord := DecodeFixed32(contents, n - 5);
      if lastWord > n - 5 then FilterBlockReader([], 0, 0, contents[n - 1])
      else FilterBlockReader(contents, lastWord, (n - 5 - lastWord) / 4, contents[n - 1])
  }

  function ShiftRight(n: nat, bits: nat): nat {
    if bits == 0 then n else ShiftRight(n / 2, bits - 1)
  }

  predicate KeyMayMatch(policy: FilterPolicy, r: FilterBlockReader, blockOffset: nat, key: Bytes)
    requires r.num > 0 ==> r.offset + 4 * r.num + 5 <= |r.data|
  {
    MatchAt(policy, r, ShiftRight(blockOffset, r.baseLg), key)
  }

  function Word(r: FilterBlockReader, i: nat): nat
    requires r.num > 0 && r.offset + 4 * r.num + 5 <= |r.data| && i <= r.num
  {
    DecodeFixed32(r.data, r.offset + 4 * i)
  }

  predicate MatchAt(policy: FilterPolicy, r: FilterBlockReader, index: nat, key: Bytes)
    requires r.num > 0 ==> r.offset + 4 * r.num + 5 <= |r.data|
  {
    if index < r.num then
      var start, limit := Word(r, index), Word(r, index + 1);
      if start <= limit && limit <= r.offset then policy.mayMatch(key, r.data[start..limit])
      else start != limit
    else
      // Errors are treated as potential matches
      true
  }

  lemma OpenBuilt(policy: FilterPolicy, groups: seq<seq<Bytes>>)
    requires |Contents(policy, groups)| < LIMIT32
    ensures Open(Contents(policy, groups)) ==
      FilterBlockReader(Contents(policy, groups), |Filters(policy, groups)|, |groups|, FILTER_BASE_LG)
    ensures Holds(Contents(policy, groups), |Filters(policy, groups)|,
      FixedAll(FilterOffsets(policy, groups) + [|Filters(policy, groups)|]))
  {
    hide Fixed32, DecodeFixed32, FixedAll, Filters, FilterOffsets;
    var filters := Filters(policy, groups);
    var words := FilterOffsets(policy, groups) + [|filters|];
    var contents := Contents(policy, groups);
    FixedLength(words);
    FixedAt(words, |groups|);
    FixedIsFour(|filters|);
    PartHolds(filters, FixedAll(words), [FILTER_BASE_LG]);
    HoldsWithin(contents, |filters|, FixedAll(words), 4 * |groups|, Fixed32(|filters|));
    Fixed32RoundTrips(contents, |filters| + 4 * |groups|, |filters|);
  }

  lemma PartHolds(a: Bytes, b: Bytes, c: Bytes)
    ensures Holds(a + (b + c), |a|, b)
  {
    assert (a + (b + c))[|a|..|a| + |b|] == b;
  }

  // Where filter i is.
  lemma {:induction false} FilterAt(policy: FilterPolicy, groups: seq<seq<Bytes>>, i: nat)
    requires i < |groups|
    ensures var words := FilterOffsets(policy, groups) + [|Filters(policy, groups)|];
      && words[i] <= words[i + 1] <= |Filters(policy, groups)|
      && Filters(policy, groups)[words[i]..words[i + 1]] == FilterOf(policy, groups[i])
  {
    hide FilterOf;
    var last := |groups| - 1;
    if i < last { FilterAt(policy, groups[..last], i); }
  }

  // A key is matched against the filter of the 2 KB that its block begins in,
  // and against nothing else.
  lemma MatchesOwnFilter(policy: FilterPolicy, groups: seq<seq<Bytes>>, blockOffset: nat, key: Bytes)
    requires |Contents(policy, groups)| < LIMIT32
    ensures var r := Open(Contents(policy, groups));
      KeyMayMatch(policy, r, blockOffset, key) ==
        var index := blockOffset / FILTER_BASE;
        index < |groups| ==> policy.mayMatch(key, FilterOf(policy, groups[index]))
  {
    OpenBuilt(policy, groups);
    ShiftIsDivision(blockOffset);
    hide Contents, Filters, FilterOffsets, FilterOf, DecodeFixed32, ShiftRight, Open, FixedAll, Word, MatchAt;
    var index := blockOffset / FILTER_BASE;
    if index < |groups| {
      var filters := Filters(policy, groups);
      var words := FilterOffsets(policy, groups) + [|filters|];
      FilterAt(policy, groups, index);
      ReaderWord(policy, groups, index);
      ReaderWord(policy, groups, index + 1);
      FiltersFirst(policy, groups, words[index], words[index + 1]);
      MatchesFilterAt(policy, Open(Contents(policy, groups)), groups, index, key);
    }
  }

  lemma MatchesFilterAt(policy: FilterPolicy, r: FilterBlockReader, groups: seq<seq<Bytes>>, index: nat, key: Bytes)
    requires r.num > 0 && r.offset + 4 * r.num + 5 <= |r.data| && index < r.num && index < |groups|
    requires Word(r, index) <= Word(r, index + 1) <= r.offset
    requires r.data[Word(r, index)..Word(r, index + 1)] == FilterOf(policy, groups[index])
    ensures MatchAt(policy, r, index, key) == policy.mayMatch(key, FilterOf(policy, groups[index]))
  {
    hide Word, FilterOf;
  }

  lemma ShiftIsDivision(n: nat)
    ensures ShiftRight(n, FILTER_BASE_LG) == n / FILTER_BASE
  {
    FourBits(n, 7);
    FourBits(n / 16, 3);
    assert n / 16 / 16 == n / 256;
    assert ShiftRight(n / 256, 3) == ShiftRight(n / 256 / 2, 2) == ShiftRight(n / 256 / 2 / 2, 1) ==
      ShiftRight(n / 256 / 2 / 2 / 2, 0);
  }

  lemma FourBits(n: nat, bits: nat)
    ensures ShiftRight(n, bits + 4) == ShiftRight(n / 16, bits)
  {
    assert ShiftRight(n, bits + 4) == ShiftRight(n / 2, bits + 3);
    assert ShiftRight(n / 2, bits + 3) == ShiftRight(n / 2 / 2, bits + 2);
    assert ShiftRight(n / 2 / 2, bits + 2) == ShiftRight(n / 2 / 2 / 2, bits + 1);
    assert ShiftRight(n / 2 / 2 / 2, bits + 1) == ShiftRight(n / 2 / 2 / 2 / 2, bits);
  }

  lemma FiltersFirst(policy: FilterPolicy, groups: seq<seq<Bytes>>, start: nat, limit: nat)
    requires start <= limit <= |Filters(policy, groups)|
    ensures limit <= |Contents(policy, groups)|
    ensures Contents(policy, groups)[start..limit] == Filters(policy, groups)[start..limit]
  {
    hide Filters, FilterOffsets, FixedAll;
  }

  lemma ReaderWord(policy: FilterPolicy, groups: seq<seq<Bytes>>, i: nat)
    requires |Contents(policy, groups)| < LIMIT32 && i <= |groups| && groups != []
    ensures var r := Open(Contents(policy, groups));
      && r.num == |groups| && r.offset == |Filters(policy, groups)| && r.data == Contents(policy, groups)
      && r.offset + 4 * r.num + 5 <= |r.data|
      && Word(r, i) == (FilterOffsets(policy, groups) + [|Filters(policy, groups)|])[i]
  {
    hide Contents, Filters, FilterOffsets, DecodeFixed32, FixedAll, Open, Holds;
    OpenBuilt(policy, groups);
    WordAt(policy, groups, i);
    WordAt(policy, groups, |groups|);
  }

  lemma WordAt(policy: FilterPolicy, groups: seq<seq<Bytes>>, i: nat)
    requires |Contents(policy, groups)| < LIMIT32 && i <= |groups|
    ensures var filters := Filters(policy, groups);
      var words := FilterOffsets(policy, groups) + [|filters|];
      && |filters| + 4 * i + 4 <= |Contents(policy, groups)|
      && DecodeFixed32(Contents(policy, groups), |filters| + 4 * i) == words[i]
  {
    hide Fixed32, DecodeFixed32, FixedAll, Contents, Filters, FilterOffsets, Holds, Open;
    var filters := Filters(policy, groups);
    var words := FilterOffsets(policy, groups) + [|filters|];
    OpenBuilt(policy, groups);
    FixedLength(words);
    FixedAt(words, i);
    FixedIsFour(words[i]);
    HoldsWithin(Contents(policy, groups), |filters|, FixedAll(words), 4 * i, Fixed32(words[i]));
    HoldsInside(Contents(policy, groups), |filters| + 4 * i, Fixed32(words[i]));
    FiltersAreShort(policy, groups);
    if i < |groups| { FilterAt(policy, groups, i); }
    Fixed32RoundTrips(Contents(policy, groups), |filters| + 4 * i, words[i]);
  }

  lemma FiltersAreShort(policy: FilterPolicy, groups: seq<seq<Bytes>>)
    ensures |Filters(policy, groups)| < |Contents(policy, groups)|
  {
    hide Filters, FilterOffsets, FixedAll;
  }

  // If the policy has no false negatives then neither has the block: with
  // Finish, for every key under the offset it was added under.
  lemma NoKeyIsMissed(policy: FilterPolicy, groups: seq<seq<Bytes>>, blockOffset: nat, key: Bytes)
    requires NoFalseNegatives(policy) && |Contents(policy, groups)| < LIMIT32
    requires blockOffset / FILTER_BASE < |groups| && key in groups[blockOffset / FILTER_BASE]
    ensures KeyMayMatch(policy, Open(Contents(policy, groups)), blockOffset, key)
  {
    hide KeyMayMatch, Contents;
    MatchesOwnFilter(policy, groups, blockOffset, key);
  }

  // ----- a whole table ---------------------------------------------------------------------------

  // The blocks of a table come in the order of their offsets.
  predicate InOrder(blocks: seq<(nat, seq<Bytes>)>) {
    forall i, j :: 0 <= i < j < |blocks| ==> blocks[i].0 <= blocks[j].0
  }

  // The keys of the first n blocks, each under the offset of its block.
  ghost function Added(blocks: seq<(nat, seq<Bytes>)>, n: nat): set<(nat, Bytes)>
    requires n <= |blocks|
  {
    set i, k | 0 <= i < n && k in blocks[i].1 :: (blocks[i].0, k)
  }

  lemma MoreAdded(blocks: seq<(nat, seq<Bytes>)>, n: nat)
    requires n < |blocks|
    ensures Added(blocks, n + 1) == Added(blocks, n) + set k | k in blocks[n].1 :: (blocks[n].0, k)
  {
  }

  // The sequence of calls (StartBlock AddKey*)* Finish: no key that was added is
  // missed under the offset of its block.
  method BuildFilterBlock(policy: FilterPolicy, blocks: seq<(nat, seq<Bytes>)>) returns (contents: Bytes)
    requires InOrder(blocks)
    ensures NoFalseNegatives(policy) && |contents| < LIMIT32 ==>
      forall i, k :: 0 <= i < |blocks| && k in blocks[i].1 ==> KeyMayMatch(policy, Open(contents), blocks[i].0, k)
  {
    hide NoFalseNegatives, Open, KeyMayMatch, Filters, FilterOffsets, Flat, Starts;
    var builder := new FilterBlockBuilder(policy);
    for i := 0 to |blocks|
      invariant builder.Valid() && fresh(builder) && builder.policy == policy && builder.added == Added(blocks, i)
      invariant |builder.groups| == if i == 0 then 0 else blocks[i - 1].0 / FILTER_BASE
    {
      var offset, keys := blocks[i].0, blocks[i].1;
      builder.StartBlock(offset);
      for j := 0 to |keys|
        invariant builder.Valid() && |builder.groups| == offset / FILTER_BASE
        invariant builder.added == Added(blocks, i) + set k | k in keys[..j] :: (offset, k)
      {
        builder.AddKey(keys[j], offset);
        assert keys[..j + 1] == keys[..j] + [keys[j]];
      }
      assert keys[..|keys|] == keys;
      MoreAdded(blocks, i);
    }
    ghost var added := builder.added;
    contents := builder.Finish();
    if NoFalseNegatives(policy) && |contents| < LIMIT32 {
      forall i, k | 0 <= i < |blocks| && k in blocks[i].1 ensures KeyMayMatch(policy, Open(contents), blocks[i].0, k) {
        assert (blocks[i].0, k) in added;
        NoKeyIsMissed(policy, builder.groups, blocks[i].0, k);
      }
    }
  }

  // Whatever the bytes, a key is ruled out by a filter that is there, or by an
  // empty one, and never by an error: no filter for the block, a filter that ends
  // before it begins or behind the filters, or no room for the offsets.
  lemma ErrorsMatch(policy: FilterPolicy, r: FilterBlockReader, blockOffset: nat, key: Bytes)
    requires r.num > 0 ==> r.offset + 4 * r.num + 5 <= |r.data|
    requires !KeyMayMatch(policy, r, blockOffset, key)
    ensures var index := ShiftRight(blockOffset, r.baseLg);
      && index < r.num && Word(r, index) <= Word(r, index + 1)
      && (Word(r, index + 1) <= r.offset ==> !policy.mayMatch(key, r.data[Word(r, index)..Word(r, index + 1)]))
      && (Word(r, index + 1) > r.offset ==> Word(r, index) == Word(r, index + 1))
  {
  }

  lemma ShortBlockMatches(policy: FilterPolicy, contents: Bytes, blockOffset: nat, key: Bytes)
    requires |contents| < 5 || DecodeFixed32(contents, |contents| - 5) > |contents| - 5
    ensures KeyMayMatch(policy, Open(contents), blockOffset, key)
  {
    hide DecodeFixed32, ShiftRight;
  }
}
