/**
 Internal keys and their order (db/dbformat.h, db/dbformat.cc).

 A user key stands for its rank under the user comparator: every countable
 total order embeds in the reals, and two byte strings that the comparator
 calls equal have one rank.  Nothing below uses arithmetic on ranks.
 */
module InternalKeys {
  import opened Basics

  type UserKey = real

  // Eight bits of the packed 64-bit word are left for the value type.
  const MAX_SEQUENCE: nat := 0xFF_FFFF_FFFF_FFFF

  type SequenceNumber = n: nat | n <= MAX_SEQUENCE

  datatype ValueType = TypeDeletion | TypeValue

  datatype InternalKey = InternalKey(user: UserKey, sequence: SequenceNumber, typ: ValueType)

  datatype Entry = Entry(key: InternalKey, value: Bytes)

  function PackSequenceAndType(s: SequenceNumber, t: ValueType): (tag: nat) {
    s * 256 + if t.TypeValue? then 1 else 0
  }

  // Increasing user key, then decreasing sequence number, then decreasing type.
  predicate Less(a: InternalKey, b: InternalKey) {
    || a.user < b.user
    || (a.user == b.user
        && PackSequenceAndType(a.sequence, a.typ) > PackSequenceAndType(b.sequence, b.typ))
  }

  lemma LessIsTotalOrder(a: InternalKey, b: InternalKey, c: InternalKey)
    ensures !Less(a, a)
    ensures Less(a, b) && Less(b, c) ==> Less(a, c)
    ensures Less(a, b) || Less(b, a) || a == b
  {
  }

  // The key that a lookup at snapshot s seeks to: it precedes every entry of k
  // with a sequence number of at most s and follows every newer one.
  function LookupKey(k: UserKey, s: SequenceNumber): InternalKey {
    InternalKey(k, s, TypeValue)
  }

  predicate Sorted(es: seq<Entry>) {
    forall i, j :: 0 <= i < j < |es| ==> Less(es[i].key, es[j].key)
  }

  // i is where Seek(target) lands in a sorted run: the first entry not below target.
  predicate IsSeekPosition(es: seq<Entry>, target: InternalKey, i: int) {
    && 0 <= i <= |es|
    && (forall j :: 0 <= j < i ==> Less(es[j].key, target))
    && (forall j :: i <= j < |es| ==> !Less(es[j].key, target))
  }

  ghost function Contents(es: seq<Entry>): set<Entry> {
    set e | e in es
  }
}
