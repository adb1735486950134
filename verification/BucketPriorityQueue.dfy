// A priority queue of integer priorities: one bucket per priority between the least and the
// greatest one in use.  It refines a sequence sorted by priority, first in first out within one.
module BucketPriorityQueue {
  import opened Prelude

  type Entry<T> = (int, T)

  // ----- What the buckets stand for -----

  function Tagged<T>(bucket: seq<T>, priority: int): (r: seq<Entry<T>>)
    ensures |r| == |bucket| && forall i :: 0 <= i < |bucket| ==> r[i] == (priority, bucket[i])
  {
    seq(|bucket|, i requires 0 <= i < |bucket| => (priority, bucket[i]))
  }

  function Flatten<T>(buckets: seq<seq<T>>, offset: int): seq<Entry<T>> {
    if buckets == [] then [] else Tagged(buckets[0], offset) + Flatten(buckets[1..], offset + 1)
  }

  lemma FlattenHead<T>(buckets: seq<seq<T>>, offset: int)
    requires buckets != []
    ensures Flatten(buckets, offset) == Tagged(buckets[0], offset) + Flatten(buckets[1..], offset + 1)
  {
  }

  ghost predicate Sorted<T>(s: seq<Entry<T>>) {
    forall i, j :: 0 <= i < j < |s| ==> s[i].0 <= s[j].0
  }

  // The place after the last entry whose priority is at most that of e.
  function Inserted<T>(s: seq<Entry<T>>, e: Entry<T>): seq<Entry<T>> {
    if s == [] || e.0 < s[0].0 then [e] + s else [s[0]] + Inserted(s[1..], e)
  }

  // How many entries stay in front of e.
  function Place<T>(s: seq<Entry<T>>, e: Entry<T>): (k: nat)
    ensures k <= |s|
  {
    if s == [] || e.0 < s[0].0 then 0 else 1 + Place(s[1..], e)
  }

  lemma {:induction false} InsertedSplice<T>(s: seq<Entry<T>>, e: Entry<T>)
    ensures var k := Place(s, e); Inserted(s, e) == s[..k] + [e] + s[k..]
    ensures var k := Place(s, e); (forall i :: 0 <= i < k ==> s[i].0 <= e.0) && (k < |s| ==> e.0 < s[k].0)
  {
    if s == [] || e.0 < s[0].0 {
      assert s[..0] + [e] + s[0..] == [e] + s;
    } else {
      var k := Place(s[1..], e);
      InsertedSplice(s[1..], e);
      assert [s[0]] + (s[1..][..k] + [e] + s[1..][k..]) == s[..k + 1] + [e] + s[k + 1..];
    }
  }

  // In a sorted sequence the new entry goes right after the last one of priority at most its own.
  lemma {:induction false} InsertedPlace<T>(s: seq<Entry<T>>, e: Entry<T>)
    requires Sorted(s)
    ensures var k := Place(s, e);
      && Inserted(s, e) == s[..k] + [e] + s[k..] && Sorted(Inserted(s, e))
      && forall i :: 0 <= i < |s| ==> (s[i].0 <= e.0 <==> i < k)
  {
    hide Inserted, Place;
    InsertedSplice(s, e);
  }

  ghost predicate NoDuplicates<T>(s: seq<T>) {
    forall i, j :: 0 <= i < j < |s| ==> s[i] != s[j]
  }

  ghost function Elements<T>(s: seq<T>): set<T> {
    set x | x in s
  }

  lemma TailMembers<T>(s: seq<T>)
    requires s != [] && NoDuplicates(s)
    ensures NoDuplicates(s[1..]) && Elements(s[1..]) == Elements(s) - {s[0]}
  {
    assert s == [s[0]] + s[1..];
  }

  lemma InsertedMembers<T>(s: seq<Entry<T>>, e: Entry<T>)
    ensures |Inserted(s, e)| == |s| + 1
    ensures Elements(Inserted(s, e)) == Elements(s) + {e}
    ensures e !in s && NoDuplicates(s) ==> NoDuplicates(Inserted(s, e))
  {
    hide Inserted, Place;
    InsertedSplice(s, e);
    var k := Place(s, e);
    SpliceMembers(s[..k], s[k..], e);
    assert s == s[..k] + s[k..];
  }

  lemma SpliceMembers<T>(a: seq<T>, b: seq<T>, e: T)
    ensures Elements(a + [e] + b) == Elements(a + b) + {e}
    ensures e !in a + b && NoDuplicates(a + b) ==> NoDuplicates(a + [e] + b)
  {
    var s, t := a + b, a + [e] + b;
    forall i | 0 <= i < |t| ensures t[i] == if i < |a| then s[i] else if i == |a| then e else s[i - 1] {}
    forall i | 0 <= i < |s| ensures s[i] == t[if i < |a| then i else i + 1] {}
    if e !in s && NoDuplicates(s) {
      forall i, j | 0 <= i < j < |t| ensures t[i] != t[j] {
        var i', j' := if i < |a| then i else i - 1, if j < |a| then j else j - 1;
        if i == |a| {
          assert t[j] == s[j'] && s[j'] in s;
        } else if j == |a| {
          assert t[i] == s[i'] && s[i'] in s;
        } else {
          assert t[i] == s[i'] && t[j] == s[j'] && i' < j';
        }
      }
    }
  }

  lemma {:induction false} FlattenBounds<T>(buckets: seq<seq<T>>, offset: int)
    ensures forall i :: 0 <= i < |Flatten(buckets, offset)| ==>
      offset <= Flatten(buckets, offset)[i].0 < offset + |buckets|
  {
    if buckets != [] { FlattenBounds(buckets[1..], offset + 1); }
  }

  lemma {:induction false} FlattenSorted<T>(buckets: seq<seq<T>>, offset: int)
    ensures Sorted(Flatten(buckets, offset))
  {
    if buckets != [] {
      FlattenSorted(buckets[1..], offset + 1);
      FlattenBounds(buckets[1..], offset + 1);
    }
  }

  lemma {:induction false} FlattenConcat<T>(a: seq<seq<T>>, b: seq<seq<T>>, offset: int)
    ensures Flatten(a + b, offset) == Flatten(a, offset) + Flatten(b, offset + |a|)
  {
    if a == [] {
      assert a + b == b;
    } else {
      hide Flatten, Tagged;
      FlattenHead(a, offset);
      FlattenHead(a + b, offset);
      FlattenConcat(a[1..], b, offset + 1);
      ConcatTail(a, b);
      assert offset + 1 + |a[1..]| == offset + |a|;
      ConcatAssociates(Tagged(a[0], offset), Flatten(a[1..], offset + 1), Flatten(b, offset + |a|));
    }
  }

  lemma {:induction false} FlattenEmpties<T>(buckets: seq<seq<T>>, offset: int)
    requires forall i :: 0 <= i < |buckets| ==> buckets[i] == []
    ensures Flatten(buckets, offset) == []
  {
    if buckets != [] { FlattenEmpties(buckets[1..], offset + 1); }
  }

  // Empty buckets on either side hold no entry.
  lemma FlattenPadded<T>(before: seq<seq<T>>, buckets: seq<seq<T>>, after: seq<seq<T>>, offset: int)
    requires forall i :: 0 <= i < |before| ==> before[i] == []
    requires forall i :: 0 <= i < |after| ==> after[i] == []
    ensures Flatten(before + buckets + after, offset) == Flatten(buckets, offset + |before|)
  {
    hide Flatten;
    FlattenConcat(before + buckets, after, offset);
    FlattenConcat(before, buckets, offset);
    FlattenEmpties(before, offset);
    FlattenEmpties(after, offset + |before + buckets|);
  }

  lemma {:induction false} InsertedSplit<T>(a: seq<Entry<T>>, b: seq<Entry<T>>, e: Entry<T>)
    requires forall i :: 0 <= i < |a| ==> a[i].0 <= e.0
    requires forall i :: 0 <= i < |b| ==> e.0 < b[i].0
    ensures Inserted(a + b, e) == a + [e] + b
  {
    if a == [] {
      assert a + b == b;
      assert [] + [e] + b == [e] + b;
    } else {
      InsertedSplit(a[1..], b, e);
      ConcatTail(a, b);
      assert [a[0]] + (a[1..] + [e] + b) == a + [e] + b;
    }
  }

  // Appending to one bucket inserts the entry into the sequence.
  lemma AppendToBucket<T>(buckets: seq<seq<T>>, offset: int, i: nat, item: T)
    requires i < |buckets|
    ensures Flatten(buckets[i := buckets[i] + [item]], offset) == Inserted(Flatten(buckets, offset), (offset + i, item))
  {
    hide Flatten, Inserted;
    var lo, hi, b := buckets[..i], buckets[i + 1..], buckets[i];
    var e := (offset + i, item);
    var a := Flatten(lo, offset) + Tagged(b, offset + i);
    var rest := Flatten(hi, offset + i + 1);
    OneBucket(lo, b, hi, offset);
    OneBucket(lo, b + [item], hi, offset);
    assert buckets == lo + [b] + hi;
    assert buckets[i := b + [item]] == lo + [b + [item]] + hi;
    assert Tagged(b + [item], offset + i) == Tagged(b, offset + i) + [e];
    FlattenBounds(lo, offset);
    FlattenBounds(hi, offset + i + 1);
    InsertedSplit(a, rest, e);
    assert Flatten(lo, offset) + (Tagged(b, offset + i) + [e]) + rest == a + [e] + rest;
  }

  lemma OneBucket<T>(lo: seq<seq<T>>, b: seq<T>, hi: seq<seq<T>>, offset: int)
    ensures Flatten(lo + [b] + hi, offset)
         == Flatten(lo, offset) + Tagged(b, offset + |lo|) + Flatten(hi, offset + |lo| + 1)
  {
    FlattenConcat(lo, [b], offset);
    FlattenConcat(lo + [b], hi, offset);
    assert Flatten([b], offset + |lo|) == Tagged(b, offset + |lo|) + [];
  }

  lemma FlattenPrefix<T>(buckets: seq<seq<T>>, i: nat, offset: int)
    requires i < |buckets|
    ensures Flatten(buckets[..i + 1], offset) == Flatten(buckets[..i], offset) + Tagged(buckets[i], offset + i)
  {
    OneBucket(buckets[..i], buckets[i], [], offset);
    assert buckets[..i] + [buckets[i]] + [] == buckets[..i + 1];
  }

  // The first entry, whatever the offset was.
  lemma SingleEntry<T>(item: T, priority: int, offset: int)
    ensures Flatten<T>([], offset) == []
    ensures Flatten([[item]], priority) == Inserted(Flatten<T>([], offset), (priority, item))
  {
    OneBucket([], [item], [], priority);
    assert [] + [[item]] + [] == [[item]];
  }

  // ----- The queue -----

  class BucketPriorityQueue<T(==)> {
    var buckets: seq<seq<T>>
    var offset: int
    var len: nat
    var dropSet: Option<set<Entry<T>>>

    // The entries, as iterating the queue yields them.
    function Contents(): seq<Entry<T>>
      reads this
    {
      Flatten(buckets, offset)
    }

    ghost predicate Valid()
      reads this
    {
      && len == |Contents()|
      && (dropSet.Some? ==> NoDuplicates(Contents()) && dropSet.value == Elements(Contents()))
    }

    constructor (entries: seq<Entry<T>>, dropDuplicateEntries: bool)
      ensures Valid() && dropSet.Some? == dropDuplicateEntries
      ensures Contents() == EnqueuedAll([], entries, dropDuplicateEntries)
    {
      buckets, offset, len := [], 0, 0;
      dropSet := if dropDuplicateEntries then Some({}) else None;
      new;
      for i := 0 to |entries|
        invariant Valid() && dropSet.Some? == dropDuplicateEntries
        invariant Contents() == EnqueuedAll([], entries[..i], dropDuplicateEntries)
      {
        assert entries[..i + 1][..i] == entries[..i];
        var _ := Enqueue(entries[i].0, entries[i].1);
      }
      assert entries[..|entries|] == entries;
    }

    method Enqueue(priority: int, item: T) returns (kept: bool)
      requires Valid()
      modifies this
      ensures Valid() && dropSet.Some? == old(dropSet.Some?)
      ensures kept <==> !(old(dropSet.Some?) && (priority, item) in old(Contents()))
      ensures Contents() == if kept then Inserted(old(Contents()), (priority, item)) else old(Contents())
    {
      hide Flatten, Inserted, NoDuplicates;
      ghost var before := Contents();
      ghost var e := (priority, item);
      if dropSet.Some? {
        if (priority, item) in dropSet.value {
          return false;
        }
        dropSet := Some(dropSet.value + {(priority, item)});
      }
      ghost var drop := dropSet;
      InsertedMembers(before, e);
      if buckets == [] {
        buckets := buckets + [[item]];
        offset := priority;
        len := 1;
        assert buckets == [[item]];
        SingleEntry(item, priority, old(offset));
        return true;
      }
      var i := priority - offset;
      if i < 0 {
        var empties := seq(-i, _ => []);
        FlattenPadded(empties, buckets, [], priority);
        assert empties + buckets + [] == empties + buckets;
        buckets := empties + buckets;
        offset := priority;
        i := 0;
      }
      while i >= |buckets|
        invariant Contents() == before && offset + i == priority && i >= 0
        invariant len == old(len) && dropSet == drop
        decreases i - |buckets|
      {
        FlattenPadded<T>([], buckets, [[]], offset);
        assert [] + buckets + [[]] == buckets + [[]];
        buckets := buckets + [[]];
      }
      AppendToBucket(buckets, offset, i, item);
      buckets := buckets[i := buckets[i] + [item]];
      len := len + 1;
      return true;
    }

    method Dequeue() returns (r: Result<Entry<T>>)
      requires Valid()
      modifies this
      ensures Valid() && dropSet.Some? == old(dropSet.Some?)
      ensures old(Contents()) == [] ==> r == Err(ValueError) && Contents() == []
      ensures old(Contents()) != [] ==> r == Ok(old(Contents())[0]) && Contents() == old(Contents())[1..]
    {
      if len == 0 {
        return Err(ValueError);
      }
      ghost var before := Contents();
      while buckets != [] && buckets[0] == []
        invariant Contents() == before && len == old(len) && dropSet == old(dropSet)
        decreases |buckets|
      {
        buckets := buckets[1..];
        offset := offset + 1;
      }
      var item := buckets[0][0];
      ghost var bucket, rest := buckets[0], Flatten(buckets[1..], offset + 1);
      buckets := buckets[0 := buckets[0][1..]];
      assert Tagged(bucket, offset)[1..] == Tagged(bucket[1..], offset);
      assert (Tagged(bucket, offset) + rest)[1..] == Tagged(bucket, offset)[1..] + rest;
      var priority := offset;
      len := len - 1;
      if dropSet.Some? {
        TailMembers(before);
        dropSet := Some(dropSet.value - {(priority, item)});
      }
      return Ok((priority, item));
    }

    // list(queue)
    method Entries() returns (r: seq<Entry<T>>)
      ensures r == Contents()
    {
      r := [];
      for i := 0 to |buckets|
        invariant r == Flatten(buckets[..i], offset)
      {
        FlattenPrefix(buckets, i, offset);
        r := AppendBucket(r, buckets[i], i + offset);
      }
      assert buckets[..|buckets|] == buckets;
    }

    static method AppendBucket(before: seq<Entry<T>>, bucket: seq<T>, priority: int) returns (r: seq<Entry<T>>)
      ensures r == before + Tagged(bucket, priority)
    {
      r := before;
      for j := 0 to |bucket|
        invariant r == before + Tagged(bucket, priority)[..j]
      {
        r := r + [(priority, bucket[j])];
      }
    }

    method Length() returns (n: nat)
      requires Valid()
      ensures n == |Contents()|
    {
      n := len;
    }
  }

  // Enqueueing a list, dropping entries already present if asked to.
  function EnqueuedAll<T(==)>(s: seq<Entry<T>>, entries: seq<Entry<T>>, drop: bool): seq<Entry<T>> {
    if entries == [] then s
    else
      var before := EnqueuedAll(s, entries[..|entries| - 1], drop);
      var e := entries[|entries| - 1];
      if drop && e in before then before else Inserted(before, e)
  }

  // ----- Over every run -----

  datatype Op<T> = Enqueue(entry: Entry<T>) | Dequeue

  // The entries in the queue, those ever kept, and those dequeued, each in order.
  datatype Run<T> = Run(contents: seq<Entry<T>>, kept: seq<Entry<T>>, dequeued: seq<Entry<T>>)

  // Each operation acts as the queue's methods do; dequeueing an empty queue raises and changes nothing.
  function Step<T(==)>(r: Run<T>, op: Op<T>, drop: bool): Run<T> {
    match op
    case Enqueue(e) =>
      if drop && e in r.contents then r else Run(Inserted(r.contents, e), r.kept + [e], r.dequeued)
    case Dequeue =>
      if r.contents == [] then r else Run(r.contents[1..], r.kept, r.dequeued + [r.contents[0]])
  }

  function RunOps<T(==)>(ops: seq<Op<T>>, drop: bool): Run<T> {
    if ops == [] then Run([], [], []) else Step(RunOps(ops[..|ops| - 1], drop), ops[|ops| - 1], drop)
  }

  // The entries of one priority, in order.
  function OfPriority<T>(s: seq<Entry<T>>, p: int): seq<Entry<T>> {
    if s == [] then [] else (if s[0].0 == p then [s[0]] else []) + OfPriority(s[1..], p)
  }

  lemma OfPriorityHead<T>(s: seq<Entry<T>>, p: int)
    requires s != []
    ensures OfPriority(s, p) == (if s[0].0 == p then [s[0]] else []) + OfPriority(s[1..], p)
  {
  }

  lemma {:induction false} OfPriorityConcat<T>(a: seq<Entry<T>>, b: seq<Entry<T>>, p: int)
    ensures OfPriority(a + b, p) == OfPriority(a, p) + OfPriority(b, p)
  {
    if a == [] {
      assert a + b == b;
    } else {
      hide OfPriority;
      OfPriorityHead(a, p);
      OfPriorityHead(a + b, p);
      OfPriorityConcat(a[1..], b, p);
      ConcatTail(a, b);
      ConcatAssociates(if a[0].0 == p then [a[0]] else [], OfPriority(a[1..], p), OfPriority(b, p));
    }
  }

  lemma {:induction false} OfPriorityNone<T>(s: seq<Entry<T>>, p: int)
    requires forall i :: 0 <= i < |s| ==> s[i].0 != p
    ensures OfPriority(s, p) == []
  {
    if s != [] { OfPriorityNone(s[1..], p); }
  }

  lemma OfPriorityOne<T>(e: Entry<T>, p: int)
    ensures OfPriority([e], p) == if e.0 == p then [e] else []
  {
    assert [e][1..] == [];
    assert [e] + [] == [e];
  }

  // Inserting appends at the end of its own priority and leaves the others alone.
  lemma InsertedOfPriority<T>(s: seq<Entry<T>>, e: Entry<T>, p: int)
    requires Sorted(s)
    ensures OfPriority(Inserted(s, e), p) == OfPriority(s, p) + OfPriority([e], p)
  {
    hide Inserted, Place, OfPriority;
    var k := Place(s, e);
    InsertedPlace(s, e);
    OfPriorityConcat(s[..k] + [e], s[k..], p);
    OfPriorityConcat(s[..k], [e], p);
    OfPriorityConcat(s[..k], s[k..], p);
    assert s == s[..k] + s[k..];
    OfPriorityOne(e, p);
    if p == e.0 { OfPriorityNone(s[k..], p); }
  }

  // First in, first out within priority p: what was kept at p is what left at p, then what is
  // still there, in the same order.  The queue is sorted, and free of duplicates if asked to be.
  ghost predicate Stable<T>(r: Run<T>, drop: bool, p: int) {
    && Sorted(r.contents) && (drop ==> NoDuplicates(r.contents))
    && OfPriority(r.kept, p) == OfPriority(r.dequeued, p) + OfPriority(r.contents, p)
    && |r.kept| == |r.dequeued| + |r.contents|
  }

  lemma EnqueueStable<T>(r: Run<T>, e: Entry<T>, drop: bool, p: int)
    requires Stable(r, drop, p)
    ensures Stable(Step(r, Enqueue(e), drop), drop, p)
  {
    hide OfPriority, Inserted, Place;
    InsertedPlace(r.contents, e);
    InsertedMembers(r.contents, e);
    InsertedOfPriority(r.contents, e, p);
    OfPriorityConcat(r.kept, [e], p);
    assert OfPriority(r.dequeued, p) + OfPriority(r.contents, p) + OfPriority([e], p)
        == OfPriority(r.dequeued, p) + (OfPriority(r.contents, p) + OfPriority([e], p));
  }

  lemma DequeueStable<T>(r: Run<T>, drop: bool, p: int)
    requires Stable(r, drop, p)
    ensures Stable(Step(r, Dequeue, drop), drop, p)
  {
    hide OfPriority;
    if r.contents != [] {
      var head, rest := r.contents[0], r.contents[1..];
      assert r.contents == [head] + rest;
      OfPriorityConcat([head], rest, p);
      OfPriorityConcat(r.dequeued, [head], p);
      assert OfPriority(r.dequeued, p) + (OfPriority([head], p) + OfPriority(rest, p))
          == (OfPriority(r.dequeued, p) + OfPriority([head], p)) + OfPriority(rest, p);
    }
  }

  lemma {:induction false} RunsAreStable<T>(ops: seq<Op<T>>, drop: bool, p: int)
    ensures Stable(RunOps(ops, drop), drop, p)
  {
    if ops != [] {
      hide Stable, Step;
      var before := RunOps(ops[..|ops| - 1], drop);
      RunsAreStable(ops[..|ops| - 1], drop, p);
      match ops[|ops| - 1]
      case Enqueue(e) => EnqueueStable(before, e, drop, p);
      case Dequeue => DequeueStable(before, drop, p);
    }
  }

  // The entries the operations ask to add, first to last.
  function Requested<T>(ops: seq<Op<T>>): seq<Entry<T>> {
    if ops == [] then []
    else (match ops[0] case Enqueue(e) => [e] case Dequeue => []) + Requested(ops[1..])
  }

  lemma {:induction false} RequestedConcat<T>(a: seq<Op<T>>, b: seq<Op<T>>)
    ensures Requested(a + b) == Requested(a) + Requested(b)
  {
    if a == [] {
      assert a + b == b;
    } else {
      RequestedConcat(a[1..], b);
      ConcatTail(a, b);
    }
  }

  // A queue that keeps duplicates keeps every request, in the order of the requests.
  lemma {:induction false} EveryRequestKept<T>(ops: seq<Op<T>>)
    ensures RunOps(ops, false).kept == Requested(ops)
  {
    if ops != [] {
      var before, op := ops[..|ops| - 1], ops[|ops| - 1];
      EveryRequestKept(before);
      RequestedConcat(before, [op]);
      assert ops == before + [op];
      assert Requested([op]) == (match op case Enqueue(e) => [e] case Dequeue => []) + Requested([op][1..]);
    }
  }

  // Each entry at its first place only.
  function Firsts<T(==)>(entries: seq<Entry<T>>): seq<Entry<T>> {
    if entries == [] then []
    else
      var before, e := entries[..|entries| - 1], entries[|entries| - 1];
      Firsts(before) + (if e in before then [] else [e])
  }

  lemma EnqueuedOneMore<T>(before: seq<Entry<T>>, e: Entry<T>, drop: bool)
    ensures var q := EnqueuedAll([], before, drop);
      EnqueuedAll([], before + [e], drop) == if drop && e in q then q else Inserted(q, e)
    ensures Firsts(before + [e]) == if e in before then Firsts(before) else Firsts(before) + [e]
  {
    assert (before + [e])[..|before|] == before;
  }

  lemma {:induction false} BuiltSorted<T>(entries: seq<Entry<T>>, drop: bool)
    ensures var q := EnqueuedAll([], entries, drop); Sorted(q) && forall e :: e in q <==> e in entries
  {
    if entries != [] {
      hide EnqueuedAll, Firsts, Inserted, Place;
      var before, e := entries[..|entries| - 1], entries[|entries| - 1];
      var q := EnqueuedAll([], before, drop);
      assert entries == before + [e];
      BuiltSorted(before, drop);
      EnqueuedOneMore(before, e, drop);
      InsertedPlace(q, e);
      InsertedMembers(q, e);
      MembersGrow(q, before, e);
    }
  }

  lemma {:induction false} BuiltOfPriority<T>(entries: seq<Entry<T>>, drop: bool, p: int)
    ensures OfPriority(EnqueuedAll([], entries, drop), p) == OfPriority(if drop then Firsts(entries) else entries, p)
  {
    if entries != [] {
      hide EnqueuedAll, Firsts, Inserted, OfPriority, Sorted;
      var before, e := entries[..|entries| - 1], entries[|entries| - 1];
      assert entries == before + [e];
      BuiltSorted(before, drop);
      BuiltOfPriority(before, drop, p);
      EnqueuedOneMore(before, e, drop);
      InsertedOfPriority(EnqueuedAll([], before, drop), e, p);
      OfPriorityConcat(before, [e], p);
      OfPriorityConcat(Firsts(before), [e], p);
    }
  }

  // Building a queue from a list: sorted by priority, and within a priority the entries in the
  // order of the list, each at its first place only if duplicates are dropped.
  lemma {:induction false} BuiltInOrder<T>(entries: seq<Entry<T>>, drop: bool, p: int)
    ensures var q := EnqueuedAll([], entries, drop);
      && Sorted(q) && (forall e :: e in q <==> e in entries)
      && OfPriority(q, p) == OfPriority(if drop then Firsts(entries) else entries, p)
  {
    hide *;
    BuiltSorted(entries, drop);
    BuiltOfPriority(entries, drop, p);
  }

  lemma MembersGrow<T>(q: seq<Entry<T>>, before: seq<Entry<T>>, e: Entry<T>)
    requires forall x :: x in q <==> x in before
    requires Elements(Inserted(q, e)) == Elements(q) + {e}
    ensures forall x :: x in Inserted(q, e) <==> x in before + [e]
    ensures e in q ==> forall x :: x in q <==> x in before + [e]
  {
    hide Inserted;
    forall x ensures x in Inserted(q, e) <==> x in before + [e] {
      assert x in Inserted(q, e) <==> x in Elements(Inserted(q, e));
    }
  }

  // A dequeued entry has the least priority in the queue.
  lemma DequeueIsLeast<T>(ops: seq<Op<T>>, drop: bool, i: nat)
    requires i < |RunOps(ops, drop).contents|
    ensures RunOps(ops, drop).contents[0].0 <= RunOps(ops, drop).contents[i].0
  {
    RunsAreStable(ops, drop, 0);
  }
}
