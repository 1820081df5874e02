/** Jansson's hash table: one circular doubly linked list of all pairs, in which every bucket is a
    contiguous run from `first` to `last`. It is proved to behave as a plain map. */
module HashTable {
  import opened Bytes
  import opened Division

  /** An opaque json_t pointer. */
  type Value = nat

  // ------------------------------------------------------------------ hashing

  const SIZE_MODULUS := 0x1_0000_0000_0000_0000

  /** A signed char converted to size_t. */
  function SignExtend(c: Byte): (r: nat) {
    if c < 128 then c else SIZE_MODULUS - 256 + c
  }

  function HashFrom(hash: nat, key: seq<Byte>): (r: nat)
    decreases |key|
  {
    if key == [] then hash else HashFrom((hash * 33 + SignExtend(key[0])) % SIZE_MODULUS, key[1..])
  }

  function Hash(key: seq<Byte>): (r: nat) {
    HashFrom(5381, key)
  }

  method HashStr(key: CString) returns (hash: nat)
    ensures hash == Hash(key)
  {
    hash := 5381;
    var i := 0;
    while i < |key|
      invariant 0 <= i <= |key| && HashFrom(hash, key[i..]) == Hash(key)
    {
      hash := (hash * 33 + SignExtend(key[i])) % SIZE_MODULUS;
      assert key[i..][1..] == key[i + 1..];
      i := i + 1;
    }
  }

  /** The same over the integers, with the bytes as signed chars. */
  ghost function Djb2(key: seq<Byte>): (n: int)
    decreases |key|
  {
    if key == [] then 5381
    else
      var c: int := key[|key| - 1];
      Djb2(key[..|key| - 1]) * 33 + if c < 128 then c else c - 256
  }

  lemma {:induction false} HashAppend(hash: nat, key: seq<Byte>, c: Byte)
    ensures HashFrom(hash, key + [c]) == (HashFrom(hash, key) * 33 + SignExtend(c)) % SIZE_MODULUS
    decreases |key|
  {
    if key == [] {
      assert (key + [c])[1..] == [] && (key + [c])[0] == c;
    } else {
      assert (key + [c])[1..] == key[1..] + [c] && (key + [c])[0] == key[0];
      HashAppend((hash * 33 + SignExtend(key[0])) % SIZE_MODULUS, key[1..], c);
    }
  }

  lemma WrapOnce(n: int, c: int)
    requires 0 <= c < 256
    ensures (n % SIZE_MODULUS * 33 + SignExtend(c)) % SIZE_MODULUS ==
            (n * 33 + if c < 128 then c else c - 256) % SIZE_MODULUS
  {
    var q := n / SIZE_MODULUS;
    assert n == q * SIZE_MODULUS + n % SIZE_MODULUS;
    var x := n % SIZE_MODULUS * 33 + SignExtend(c);
    var k := q * 33 - if c < 128 then 0 else 1;
    assert n * 33 + (if c < 128 then c else c - 256) == x + k * SIZE_MODULUS;
    WrapMultiple(x, k);
  }

  lemma WrapMultiple(x: int, k: int)
    ensures (x + k * SIZE_MODULUS) % SIZE_MODULUS == x % SIZE_MODULUS
  {
    DivModUnique(x + k * SIZE_MODULUS, SIZE_MODULUS, x / SIZE_MODULUS + k, x % SIZE_MODULUS);
  }

  /** Wrapping at every step is wrapping once at the end. */
  lemma {:induction false} HashIsDjb2(key: seq<Byte>)
    ensures Hash(key) == Djb2(key) % SIZE_MODULUS
    decreases |key|
  {
    if key == [] {
    } else {
      var front, c := key[..|key| - 1], key[|key| - 1];
      HashIsDjb2(front);
      HashAppend(5381, front, c);
      assert key == front + [c];
      WrapOnce(Djb2(front), c);
    }
  }

  const PRIMES: seq<int> := [
    5, 13, 23, 53, 97, 193, 389, 769, 1543, 3079, 6151, 12289, 24593,
    49157, 98317, 196613, 393241, 786433, 1572869, 3145739, 6291469,
    12582917, 25165843, 50331653, 100663319, 201326611, 402653189,
    805306457, 1610612741]

  function Prime(i: nat): (n: nat)
    requires i < |PRIMES|
    ensures n > 0
  {
    PRIMES[i]
  }

  function BucketIndex(hash: nat, n: nat): (i: nat)
    requires n > 0
    ensures i < n
  {
    hash % n
  }

  // ------------------------------------------------- the circular linked list

  /** A list link together with the pair that contains it; the table's own list head is a
      link whose pair part is unused. */
  class Link {
    var prev: Link
    var next: Link
    var value: Value
    const key: CString
    const hash: nat
    const serial: nat

    constructor (key: CString, hash: nat, serial: nat, value: Value)
      ensures this.key == key && this.hash == hash && this.serial == serial && this.value == value
      ensures prev == this && next == this
    {
      this.key, this.hash, this.serial, this.value := key, hash, serial, value;
      prev, next := this, this;
    }
  }

  ghost function At(head: Link, nodes: seq<Link>, i: int): Link {
    if 0 <= i < |nodes| then nodes[i] else head
  }

  ghost function Members(nodes: seq<Link>): set<Link> {
    set x | x in nodes
  }

  ghost predicate Distinct(nodes: seq<Link>) {
    forall i, j :: 0 <= i < j < |nodes| ==> nodes[i] != nodes[j]
  }

  /** From `head`, `next` runs through `nodes` in order and back to `head`, except that the link out of
      position `k - 1` (of `head` when `k` is 0) leads to `to` instead. */
  ghost predicate NextChain(head: Link, nodes: seq<Link>, k: int, to: Link)
    reads head`next, nodes`next
  {
    && head.next == (if k == 0 then to else At(head, nodes, 0))
    && forall i {:trigger nodes[i].next} :: 0 <= i < |nodes| ==>
         nodes[i].next == if i == k - 1 then to else At(head, nodes, i + 1)
  }

  /** The same for `prev`, with the link out of position `k` (of `head` when `k` is past the end) redirected. */
  ghost predicate PrevChain(head: Link, nodes: seq<Link>, k: int, to: Link)
    reads head`prev, nodes`prev
  {
    && head.prev == (if k == |nodes| then to else At(head, nodes, |nodes| - 1))
    && forall i {:trigger nodes[i].prev} :: 0 <= i < |nodes| ==>
         nodes[i].prev == if i == k then to else At(head, nodes, i - 1)
  }

  ghost predicate Linked(head: Link, nodes: seq<Link>)
    reads head`prev, head`next, nodes`prev, nodes`next
  {
    && head !in nodes && Distinct(nodes)
    && NextChain(head, nodes, -1, head) && PrevChain(head, nodes, -1, head)
  }

  /** `nodes'` is `nodes` with `node` put at position `k`. */
  ghost predicate Inserted(nodes: seq<Link>, k: int, node: Link, nodes': seq<Link>) {
    && 0 <= k <= |nodes| && |nodes'| == |nodes| + 1 && nodes'[k] == node
    && (forall i :: 0 <= i < k ==> nodes'[i] == nodes[i])
    && (forall i :: k < i < |nodes'| ==> nodes'[i] == nodes[i - 1])
  }

  /** `nodes'` is `nodes` without position `k`. */
  ghost predicate Removed(nodes: seq<Link>, k: int, nodes': seq<Link>) {
    && 0 <= k < |nodes| && |nodes'| == |nodes| - 1
    && (forall i :: 0 <= i < k ==> nodes'[i] == nodes[i])
    && (forall i :: k <= i < |nodes'| ==> nodes'[i] == nodes[i + 1])
  }

  lemma InsertAt(nodes: seq<Link>, k: int, node: Link) returns (nodes': seq<Link>)
    requires 0 <= k <= |nodes|
    ensures Inserted(nodes, k, node, nodes') && Members(nodes') == Members(nodes) + {node}
  {
    nodes' := nodes[..k] + [node] + nodes[k..];
    forall x <- nodes ensures x in nodes' {
      var i :| 0 <= i < |nodes| && nodes[i] == x;
      assert nodes'[if i < k then i else i + 1] == x;
    }
  }

  lemma RemoveAt(nodes: seq<Link>, k: int) returns (nodes': seq<Link>)
    requires 0 <= k < |nodes|
    ensures Removed(nodes, k, nodes') && forall x <- nodes' :: x in nodes
  {
    nodes' := nodes[..k] + nodes[k + 1..];
  }

  lemma SameMembers(nodes: seq<Link>, nodes': seq<Link>)
    requires Members(nodes) == Members(nodes')
    ensures forall x :: x in nodes <==> x in nodes'
  {
    assert forall x :: x in nodes <==> x in Members(nodes);
    assert forall x :: x in nodes' <==> x in Members(nodes');
  }

  lemma PrefixGrows(nodes: seq<Link>, i: int, done: seq<Link>)
    requires Distinct(nodes) && 0 <= i < |nodes| && Members(done) == Members(nodes[..i])
    ensures Members(nodes[..i + 1]) == Members(nodes[..i]) + {nodes[i]}
    ensures forall j :: i <= j < |nodes| ==> nodes[j] !in done
    ensures forall j :: i < j < |nodes| ==> nodes[j] != nodes[i]
    ensures forall j :: 0 <= j < |done| ==> done[j] in nodes
  {
    assert nodes[..i + 1] == nodes[..i] + [nodes[i]];
    SameMembers(done, nodes[..i]);
    forall j | i <= j < |nodes| ensures nodes[j] !in done {
      assert nodes[j] !in nodes[..i];
    }
    forall j | 0 <= j < |done| ensures done[j] in nodes {
      assert done[j] in nodes[..i];
    }
  }

  lemma InsertedDistinct(head: Link, nodes: seq<Link>, k: int, node: Link, nodes': seq<Link>)
    requires head !in nodes && Distinct(nodes) && node != head && node !in nodes
    requires Inserted(nodes, k, node, nodes')
    ensures head !in nodes' && Distinct(nodes')
  {
  }

  lemma InsertedChain(head: Link, nodes: seq<Link>, k: int, node: Link, nodes': seq<Link>)
    requires Inserted(nodes, k, node, nodes')
    requires NextChain(head, nodes, k, node) && node.next == At(head, nodes, k)
    requires PrevChain(head, nodes, k, node) && node.prev == At(head, nodes, k - 1)
    ensures NextChain(head, nodes', -1, head)
    ensures PrevChain(head, nodes', -1, head)
  {
  }

  lemma RemovedChain(head: Link, nodes: seq<Link>, k: int, nodes': seq<Link>)
    requires Removed(nodes, k, nodes') && head !in nodes && Distinct(nodes)
    requires NextChain(head, nodes, k, At(head, nodes, k + 1))
    requires PrevChain(head, nodes, k + 1, At(head, nodes, k - 1))
    ensures Linked(head, nodes')
  {
  }

  /** Inserts `node` in front of `list`. */
  method ListInsert(list: Link, node: Link, ghost head: Link, ghost nodes: seq<Link>, ghost k: int,
                    ghost nodes': seq<Link>)
    requires Linked(head, nodes) && Inserted(nodes, k, node, nodes') && list == At(head, nodes, k)
    requires node != head && node !in nodes
    modifies node`prev, node`next, list`prev, list.prev`next
    ensures Linked(head, nodes')
  {
    assert list.prev == At(head, nodes, k - 1);
    node.next := list;
    node.prev := list.prev;
    list.prev.next := node;
    list.prev := node;
    InsertedDistinct(head, nodes, k, node, nodes');
    InsertedChain(head, nodes, k, node, nodes');
  }

  /** Unlinks `node`, which is `nodes[k]`. */
  method ListRemove(node: Link, ghost head: Link, ghost nodes: seq<Link>, ghost k: int, ghost nodes': seq<Link>)
    requires Linked(head, nodes) && Removed(nodes, k, nodes') && node == nodes[k]
    modifies node.prev`next, node.next`prev
    ensures Linked(head, nodes')
  {
    assert node.prev == At(head, nodes, k - 1) && node.next == At(head, nodes, k + 1);
    node.prev.next := node.next;
    node.next.prev := node.prev;
    RemovedChain(head, nodes, k, nodes');
  }

  // ------------------------------------------------- buckets as contiguous runs

  datatype Bucket = Bucket(first: Link, last: Link)

  /** The positions `lo..hi` of the list. */
  datatype Run = Run(lo: int, hi: int)

  /** The pairs that hash to bucket `i` are exactly those of `run`, and the bucket points at its two ends. */
  ghost predicate RunOk(head: Link, nodes: seq<Link>, n: nat, b: Bucket, i: int, run: Run)
    requires n > 0
  {
    && 0 <= run.lo <= run.hi <= |nodes|
    && (run.lo == run.hi ==> b == Bucket(head, head))
    && (run.lo < run.hi ==> b == Bucket(nodes[run.lo], nodes[run.hi - 1]))
    && forall j :: 0 <= j < |nodes| ==> (BucketIndex(nodes[j].hash, n) == i <==> run.lo <= j < run.hi)
  }

  ghost predicate BucketsOk(head: Link, nodes: seq<Link>, buckets: seq<Bucket>, runs: seq<Run>) {
    && |buckets| == |runs| > 0
    && forall i :: 0 <= i < |buckets| ==> RunOk(head, nodes, |buckets|, buckets[i], i, runs[i])
  }

  ghost function InsertPosition(nodes: seq<Link>, run: Run): int {
    if run.lo == run.hi then |nodes| else run.lo
  }

  ghost function ShiftUp(run: Run, k: int): Run {
    if run.lo >= k then Run(run.lo + 1, run.hi + 1) else run
  }

  ghost function ShiftDown(run: Run, k: int): Run {
    if run.lo > k then Run(run.lo - 1, run.hi - 1) else run
  }

  ghost function RunsAfterInsert(runs: seq<Run>, i: int, k: int): (r: seq<Run>)
    requires 0 <= i < |runs|
  {
    seq(|runs|, j requires 0 <= j < |runs| =>
      if j != i then ShiftUp(runs[j], k)
      else Run(k, if runs[j].lo == runs[j].hi then k + 1 else runs[j].hi + 1))
  }

  ghost function RunsAfterRemove(runs: seq<Run>, i: int, k: int): (r: seq<Run>)
    requires 0 <= i < |runs|
  {
    seq(|runs|, j requires 0 <= j < |runs| =>
      if j != i then ShiftDown(runs[j], k) else Run(runs[j].lo, runs[j].hi - 1))
  }

  function BucketAfterInsert(head: Link, b: Bucket, node: Link): Bucket {
    if b.first == head && b.first == b.last then Bucket(node, node) else Bucket(node, b.last)
  }

  lemma InsertKeepsOtherRun(head: Link, nodes: seq<Link>, n: nat, b: Bucket, run: Run, j: int,
                            own: Run, ownB: Bucket, i: int, k: int, node: Link, nodes': seq<Link>)
    requires n > 0 && i != j && BucketIndex(node.hash, n) == i
    requires RunOk(head, nodes, n, b, j, run) && RunOk(head, nodes, n, ownB, i, own)
    requires k == InsertPosition(nodes, own) && Inserted(nodes, k, node, nodes')
    ensures RunOk(head, nodes', n, b, j, ShiftUp(run, k))
  {
    hide BucketIndex;
    assert k < |nodes| ==> BucketIndex(nodes[k].hash, n) == i;
    assert run.lo < run.hi ==> k <= run.lo || run.hi <= k;
    var run' := ShiftUp(run, k);
    forall m | 0 <= m < |nodes'|
      ensures BucketIndex(nodes'[m].hash, n) == j <==> run'.lo <= m < run'.hi
    {
      if m != k {
        assert nodes'[m] == nodes[if m < k then m else m - 1];
      }
    }
  }

  lemma InsertKeepsOwnRun(head: Link, nodes: seq<Link>, n: nat, b: Bucket, run: Run, i: int,
                          k: int, node: Link, nodes': seq<Link>)
    requires n > 0 && BucketIndex(node.hash, n) == i && head !in nodes
    requires RunOk(head, nodes, n, b, i, run)
    requires k == InsertPosition(nodes, run) && Inserted(nodes, k, node, nodes')
    ensures RunOk(head, nodes', n, BucketAfterInsert(head, b, node), i,
                  Run(k, if run.lo == run.hi then k + 1 else run.hi + 1))
  {
  }

  lemma InsertKeepsBuckets(head: Link, nodes: seq<Link>, buckets: seq<Bucket>, runs: seq<Run>, i: int,
                           k: int, node: Link, nodes': seq<Link>)
    requires BucketsOk(head, nodes, buckets, runs) && head !in nodes
    requires i == BucketIndex(node.hash, |buckets|)
    requires k == InsertPosition(nodes, runs[i]) && Inserted(nodes, k, node, nodes')
    ensures BucketsOk(head, nodes', buckets[i := BucketAfterInsert(head, buckets[i], node)],
                      RunsAfterInsert(runs, i, k))
  {
    var runs' := RunsAfterInsert(runs, i, k);
    var buckets' := buckets[i := BucketAfterInsert(head, buckets[i], node)];
    forall j | 0 <= j < |buckets'| ensures RunOk(head, nodes', |buckets'|, buckets'[j], j, runs'[j]) {
      if j != i {
        InsertKeepsOtherRun(head, nodes, |buckets|, buckets[j], runs[j], j, runs[i], buckets[i], i, k, node, nodes');
      } else {
        InsertKeepsOwnRun(head, nodes, |buckets|, buckets[i], runs[i], i, k, node, nodes');
      }
    }
  }

  function BucketAfterRemove(head: Link, b: Bucket, node: Link, prev: Link, next: Link): Bucket {
    if node == b.first && node == b.last then Bucket(head, head)
    else if node == b.first then Bucket(next, b.last)
    else if node == b.last then Bucket(b.first, prev)
    else b
  }

  lemma RemoveKeepsOtherRun(head: Link, nodes: seq<Link>, n: nat, b: Bucket, run: Run, j: int,
                            k: int, nodes': seq<Link>)
    requires n > 0 && Removed(nodes, k, nodes') && BucketIndex(nodes[k].hash, n) != j
    requires RunOk(head, nodes, n, b, j, run)
    ensures RunOk(head, nodes', n, b, j, ShiftDown(run, k))
  {
    assert !(run.lo <= k < run.hi);
  }

  lemma RemoveKeepsOwnRun(head: Link, nodes: seq<Link>, n: nat, b: Bucket, run: Run, i: int,
                          k: int, nodes': seq<Link>)
    requires n > 0 && Removed(nodes, k, nodes') && BucketIndex(nodes[k].hash, n) == i && Distinct(nodes)
    requires RunOk(head, nodes, n, b, i, run)
    ensures RunOk(head, nodes', n,
                  BucketAfterRemove(head, b, nodes[k], At(head, nodes, k - 1), At(head, nodes, k + 1)),
                  i, Run(run.lo, run.hi - 1))
  {
    assert run.lo <= k < run.hi;
    assert nodes[k] == b.first <==> k == run.lo;
    assert nodes[k] == b.last <==> k == run.hi - 1;
  }

  lemma RemoveKeepsBuckets(head: Link, nodes: seq<Link>, buckets: seq<Bucket>, runs: seq<Run>, i: int,
                           k: int, nodes': seq<Link>)
    requires BucketsOk(head, nodes, buckets, runs) && Distinct(nodes) && Removed(nodes, k, nodes')
    requires i == BucketIndex(nodes[k].hash, |buckets|)
    ensures BucketsOk(head, nodes',
                      buckets[i := BucketAfterRemove(head, buckets[i], nodes[k],
                                                     At(head, nodes, k - 1), At(head, nodes, k + 1))],
                      RunsAfterRemove(runs, i, k))
  {
    var runs' := RunsAfterRemove(runs, i, k);
    var buckets' := buckets[i := BucketAfterRemove(head, buckets[i], nodes[k],
                                                   At(head, nodes, k - 1), At(head, nodes, k + 1))];
    forall j | 0 <= j < |buckets'| ensures RunOk(head, nodes', |buckets'|, buckets'[j], j, runs'[j]) {
      if j != i {
        RemoveKeepsOtherRun(head, nodes, |buckets|, buckets[j], runs[j], j, k, nodes');
      } else {
        RemoveKeepsOwnRun(head, nodes, |buckets|, buckets[j], runs[j], j, k, nodes');
      }
    }
  }

  // ------------------------------------------------- the abstract map

  datatype Entry = Entry(serial: nat, value: Value)

  type Model = map<CString, Entry>

  ghost predicate HasKey(nodes: seq<Link>, key: CString) {
    exists i :: 0 <= i < |nodes| && nodes[i].key == key
  }

  ghost predicate KeysOk(nodes: seq<Link>) {
    && (forall i, j :: 0 <= i < j < |nodes| ==> nodes[i].key != nodes[j].key)
    && (forall i :: 0 <= i < |nodes| ==> nodes[i].hash == Hash(nodes[i].key))
  }

  ghost predicate Covers(nodes: seq<Link>, keys: set<CString>) {
    forall key <- keys :: HasKey(nodes, key)
  }

  ghost predicate EntriesOk(nodes: seq<Link>, model: Model)
    reads nodes`value
  {
    forall i :: 0 <= i < |nodes| ==>
      nodes[i].key in model && model[nodes[i].key] == Entry(nodes[i].serial, nodes[i].value)
  }

  /** `nodes` lists the entries of `model`, each key once. */
  ghost predicate Represents(nodes: seq<Link>, model: Model)
    reads nodes`value
  {
    |nodes| == |model| && KeysOk(nodes) && Covers(nodes, model.Keys) && EntriesOk(nodes, model)
  }

  lemma AbsentFromRun(head: Link, nodes: seq<Link>, n: nat, b: Bucket, i: int, run: Run, key: CString, model: Model)
    requires n > 0 && RunOk(head, nodes, n, b, i, run) && i == BucketIndex(Hash(key), n)
    requires Represents(nodes, model)
    requires forall j :: run.lo <= j < run.hi ==> nodes[j].key != key
    ensures key !in model
  {
    assert !HasKey(nodes, key);
  }

  lemma InsertKeys(nodes: seq<Link>, k: int, node: Link, nodes': seq<Link>, keys: set<CString>)
    requires KeysOk(nodes) && Covers(nodes, keys) && Inserted(nodes, k, node, nodes')
    requires node.hash == Hash(node.key) && forall i :: 0 <= i < |nodes| ==> nodes[i].key != node.key
    ensures KeysOk(nodes') && Covers(nodes', keys + {node.key})
  {
    forall key <- keys + {node.key} ensures HasKey(nodes', key) {
      if key == node.key {
        assert nodes'[k].key == key;
      } else {
        assert HasKey(nodes, key);
        var i :| 0 <= i < |nodes| && nodes[i].key == key;
        assert nodes'[if i < k then i else i + 1].key == key;
      }
    }
  }

  lemma InsertEntries(nodes: seq<Link>, k: int, node: Link, nodes': seq<Link>, model: Model)
    requires EntriesOk(nodes, model) && Inserted(nodes, k, node, nodes') && node.key !in model
    ensures EntriesOk(nodes', model[node.key := Entry(node.serial, node.value)])
  {
  }

  lemma InsertRepresents(nodes: seq<Link>, k: int, node: Link, nodes': seq<Link>, model: Model)
    requires Represents(nodes, model) && Inserted(nodes, k, node, nodes')
    requires node.hash == Hash(node.key) && node.key !in model
    ensures Represents(nodes', model[node.key := Entry(node.serial, node.value)])
  {
    var model' := model[node.key := Entry(node.serial, node.value)];
    InsertKeys(nodes, k, node, nodes', model.Keys);
    InsertEntries(nodes, k, node, nodes', model);
    assert model'.Keys == model.Keys + {node.key};
  }

  lemma UpdateRepresents(nodes: seq<Link>, k: int, model: Model)
    requires |nodes| == |model| && KeysOk(nodes) && Covers(nodes, model.Keys) && 0 <= k < |nodes|
    requires forall i :: 0 <= i < |nodes| ==> nodes[i].key in model
    requires forall i :: 0 <= i < |nodes| && i != k ==> model[nodes[i].key] == Entry(nodes[i].serial, nodes[i].value)
    ensures Represents(nodes, model[nodes[k].key := Entry(nodes[k].serial, nodes[k].value)])
  {
    assert model[nodes[k].key := Entry(nodes[k].serial, nodes[k].value)].Keys == model.Keys;
  }

  lemma RemoveKeys(nodes: seq<Link>, k: int, nodes': seq<Link>, keys: set<CString>)
    requires KeysOk(nodes) && Covers(nodes, keys) && Removed(nodes, k, nodes')
    ensures KeysOk(nodes') && Covers(nodes', keys - {nodes[k].key})
  {
    forall key <- keys - {nodes[k].key} ensures HasKey(nodes', key) {
      assert HasKey(nodes, key);
      var i :| 0 <= i < |nodes| && nodes[i].key == key;
      assert nodes'[if i < k then i else i - 1].key == key;
    }
  }

  lemma RemoveRepresents(nodes: seq<Link>, k: int, nodes': seq<Link>, model: Model)
    requires Represents(nodes, model) && Removed(nodes, k, nodes')
    ensures Represents(nodes', model - {nodes[k].key})
  {
    var model' := model - {nodes[k].key};
    RemoveKeys(nodes, k, nodes', model.Keys);
    assert model'.Keys == model.Keys - {nodes[k].key};
    assert EntriesOk(nodes', model');
  }

  lemma PermutedRepresents(nodes: seq<Link>, nodes': seq<Link>, model: Model)
    requires Represents(nodes, model) && |nodes'| == |nodes| && Distinct(nodes')
    requires Members(nodes) == Members(nodes')
    ensures Represents(nodes', model)
  {
    assert forall x :: x in nodes <==> x in Members(nodes);
    assert forall x :: x in nodes' <==> x in Members(nodes');
    forall i, j | 0 <= i < j < |nodes'| ensures nodes'[i].key != nodes'[j].key {
      assert nodes'[i] in nodes && nodes'[j] in nodes;
    }
    forall i | 0 <= i < |nodes'|
      ensures nodes'[i].hash == Hash(nodes'[i].key) && nodes'[i].key in model
      ensures model[nodes'[i].key] == Entry(nodes'[i].serial, nodes'[i].value)
    {
      assert nodes'[i] in nodes;
    }
    forall key <- model ensures HasKey(nodes', key) {
      assert HasKey(nodes, key);
      var i :| 0 <= i < |nodes| && nodes[i].key == key;
      assert nodes[i] in nodes';
    }
  }

  lemma ListingIsComplete(nodes: seq<Link>, model: Model, keys: seq<CString>, values: seq<Value>)
    requires Represents(nodes, model) && |keys| == |values| == |nodes|
    requires forall i :: 0 <= i < |nodes| ==> keys[i] == nodes[i].key && values[i] == nodes[i].value
    ensures Lists(keys, values, model)
  {
    forall key <- model ensures key in keys {
      assert HasKey(nodes, key);
      var i :| 0 <= i < |nodes| && nodes[i].key == key;
      assert keys[i] == key;
    }
  }

  /** Every entry of `model`, each exactly once. */
  ghost predicate Lists(keys: seq<CString>, values: seq<Value>, model: Model) {
    && |keys| == |values| == |model|
    && (forall i, j :: 0 <= i < j < |keys| ==> keys[i] != keys[j])
    && (forall i :: 0 <= i < |keys| ==> keys[i] in model && model[keys[i]].value == values[i])
    && (forall key <- model :: key in keys)
  }

  lemma LinkedDistinct(head: Link, nodes: seq<Link>)
    requires Linked(head, nodes)
    ensures Distinct(nodes) && head !in nodes && head.next == At(head, nodes, 0)
    ensures forall j {:trigger nodes[j].next} :: 0 <= j < |nodes| ==> nodes[j].next == At(head, nodes, j + 1)
  {
  }

  lemma EmptyModel()
    ensures Represents([], map[])
  {
  }

  lemma EmptyTable(head: Link, buckets: seq<Bucket>)
    requires |buckets| > 0 && forall i :: 0 <= i < |buckets| ==> buckets[i] == Bucket(head, head)
    requires head.next == head && head.prev == head
    ensures Linked(head, []) && BucketsOk(head, [], buckets, seq(|buckets|, _ => Run(0, 0)))
  {
  }

  class Hashtable {
    var size: nat
    var buckets: array<Bucket>
    var numBuckets: nat
    const list: Link
    ghost var nodes: seq<Link>
    ghost var runs: seq<Run>
    ghost var model: Model

    /** The list and the buckets fit together, whatever the pairs hold. */
    ghost predicate Shaped()
      reads `numBuckets, `buckets, `nodes, `runs, buckets, list`prev, list`next, nodes`prev, nodes`next
    {
      && numBuckets < |PRIMES| && buckets.Length == Prime(numBuckets)
      && Linked(list, nodes) && BucketsOk(list, nodes, buckets[..], runs)
    }

    ghost predicate Valid()
      reads this, buckets, list, nodes
    {
      Shaped() && size == |nodes| && Represents(nodes, model)
    }

    constructor ()
      ensures Valid() && model == map[] && fresh(buckets) && fresh(list) && nodes == []
    {
      var head := new Link([], 0, 0, 0);
      list := head;
      size, numBuckets := 0, 0;
      buckets := new Bucket[Prime(0)](_ => Bucket(head, head));
      nodes, runs, model := [], seq(Prime(0), _ => Run(0, 0)), map[];
    }

    method InsertToBucket(index: nat, link: Link)
      requires Shaped() && link != list && link !in nodes
      requires index == BucketIndex(link.hash, buckets.Length)
      modifies `nodes, `runs, buckets, list`prev, list`next, nodes`prev, nodes`next, link`prev, link`next
      ensures Shaped() && |nodes| == |old(nodes)| + 1 && Members(nodes) == Members(old(nodes)) + {link}
      ensures exists k :: Inserted(old(nodes), k, link, nodes)
    {
      hide Distinct;
      ghost var k := InsertPosition(nodes, runs[index]);
      ghost var nodes' := InsertAt(nodes, k, link);
      InsertKeepsBuckets(list, nodes, buckets[..], runs, index, k, link, nodes');
      assert RunOk(list, nodes, buckets.Length, buckets[index], index, runs[index]);
      var b := buckets[index];
      hide RunOk;
      hide Members;
      if b.first == list && b.first == b.last {
        ListInsert(list, link, list, nodes, k, nodes');
        buckets[index] := Bucket(link, link);
      } else {
        ListInsert(b.first, link, list, nodes, k, nodes');
        buckets[index] := Bucket(link, b.last);
      }
      nodes, runs := nodes', RunsAfterInsert(runs, index, k);
      assert buckets[..] == old(buckets[..])[index := BucketAfterInsert(list, b, link)];
    }

    /** Walks one bucket's run; `pos` is where the pair was found. */
    method FindPair(index: nat, key: CString, hash: nat) returns (pair: Link?, ghost pos: int)
      requires Valid() && hash == Hash(key) && index == BucketIndex(hash, buckets.Length)
      ensures pair != null <==> key in model
      ensures pair != null ==> 0 <= pos < |nodes| && nodes[pos] == pair && pair.key == key && pair.hash == hash
      ensures pair != null ==> model[key] == Entry(pair.serial, pair.value)
    {
      hide Covers;
      var b := buckets[index];
      ghost var run := runs[index];
      assert RunOk(list, nodes, buckets.Length, b, index, run);
      if b.first == list && b.first == b.last {
        AbsentFromRun(list, nodes, buckets.Length, b, index, run, key, model);
        return null, 0;
      }
      var link := b.first;
      pos := run.lo;
      while true
        invariant run.lo <= pos < run.hi && link == nodes[pos]
        invariant forall j :: run.lo <= j < pos ==> nodes[j].key != key
        decreases run.hi - pos
      {
        if link.hash == hash && link.key == key {
          return link, pos;
        }
        if link == b.last {
          break;
        }
        assert nodes[pos].next == At(list, nodes, pos + 1);
        link, pos := link.next, pos + 1;
      }
      AbsentFromRun(list, nodes, buckets.Length, b, index, run, key, model);
      return null, 0;
    }

    /** The loop of a rehash: re-inserts every pair of the old chain `all`, which starts at `first`. */
    method Relink(first: Link, ghost all: seq<Link>)
      requires Shaped() && nodes == [] && list !in all && Distinct(all) && first == At(list, all, 0)
      requires forall j {:trigger all[j].next} :: 0 <= j < |all| ==> all[j].next == At(list, all, j + 1)
      modifies `nodes, `runs, buckets, list`prev, list`next, all`prev, all`next
      ensures Shaped() && |nodes| == |all| && Members(nodes) == Members(all)
    {
      hide Linked;
      hide BucketsOk;
      hide Inserted;
      var link := first;
      ghost var i := 0;
      while link != list
        invariant 0 <= i <= |all| && link == At(list, all, i) && |nodes| == i && Shaped()
        invariant forall j {:trigger all[j].next} :: i <= j < |all| ==> all[j].next == At(list, all, j + 1)
        invariant Members(nodes) == Members(all[..i])
        decreases |all| - i
      {
        var next := link.next;
        PrefixGrows(all, i, nodes);
        InsertToBucket(BucketIndex(link.hash, buckets.Length), link);
        link, i := next, i + 1;
      }
      assert all[..i] == all;
    }

    /** Takes the next table size and re-inserts every pair. */
    method Regrow()
      requires Shaped() && numBuckets + 1 < |PRIMES|
      modifies `numBuckets, `buckets, `nodes, `runs, list`prev, list`next, nodes`prev, nodes`next
      ensures Shaped() && numBuckets == old(numBuckets) + 1 && fresh(buckets)
      ensures |nodes| == |old(nodes)| && Distinct(nodes) && Members(nodes) == Members(old(nodes))
    {
      hide Linked;
      hide BucketsOk;
      hide Distinct;
      ghost var all := nodes;
      var link := list.next;
      LinkedDistinct(list, all);
      numBuckets := numBuckets + 1;
      buckets := new Bucket[Prime(numBuckets)](_ => Bucket(list, list));
      list.next, list.prev := list, list;
      EmptyTable(list, buckets[..]);
      nodes, runs := [], seq(Prime(numBuckets), _ => Run(0, 0));
      Relink(link, all);
      LinkedDistinct(list, nodes);
    }

    method Rehash()
      requires Valid() && numBuckets + 1 < |PRIMES|
      modifies `numBuckets, `buckets, `nodes, `runs, list`prev, list`next, nodes`prev, nodes`next
      ensures Valid() && numBuckets == old(numBuckets) + 1 && fresh(buckets)
      ensures forall x :: x in nodes <==> x in old(nodes)
    {
      hide Shaped;
      hide Represents;
      ghost var all := nodes;
      Regrow();
      PermutedRepresents(all, nodes, model);
      SameMembers(nodes, all);
    }

    method AddPair(index: nat, key: CString, hash: nat, serial: nat, value: Value)
      requires Valid() && key !in model && hash == Hash(key) && index == BucketIndex(hash, buckets.Length)
      modifies `size, `nodes, `runs, `model, buckets, list`prev, list`next, nodes`prev, nodes`next
      ensures Valid() && model == old(model)[key := Entry(serial, value)]
      ensures forall i :: 0 <= i < |nodes| ==> nodes[i] in old(nodes) || fresh(nodes[i])
    {
      hide Linked;
      hide BucketsOk;
      hide Represents;
      hide Inserted;
      var link := new Link(key, hash, serial, value);
      ghost var before := nodes;
      InsertToBucket(index, link);
      ghost var k :| Inserted(before, k, link, nodes);
      InsertRepresents(before, k, link, nodes, model);
      forall i | 0 <= i < |nodes| ensures nodes[i] in before || nodes[i] == link {
        assert nodes[i] in Members(nodes);
      }
      size := size + 1;
      model := model[key := Entry(serial, value)];
    }

    method ReplaceValue(pair: Link, value: Value, ghost pos: int)
      requires Valid() && 0 <= pos < |nodes| && nodes[pos] == pair
      modifies `model, pair`value
      ensures Valid() && model == old(model)[pair.key := Entry(pair.serial, value)]
    {
      hide Linked;
      hide BucketsOk;
      hide KeysOk;
      hide Covers;
      LinkedDistinct(list, nodes);
      pair.value := value;
      UpdateRepresents(nodes, pos, model);
      model := model[pair.key := Entry(pair.serial, value)];
    }

    method Set(key: CString, serial: nat, value: Value)
      requires Valid()
      requires size < Prime(numBuckets) || numBuckets + 1 < |PRIMES|
      modifies this, buckets, list, nodes
      ensures Valid() && (buckets == old(buckets) || fresh(buckets))
      ensures forall i :: 0 <= i < |nodes| ==> nodes[i] in old(nodes) || fresh(nodes[i])
      ensures model == old(model)[key := Entry(if key in old(model) then old(model)[key].serial else serial, value)]
    {
      hide Linked;
      hide BucketsOk;
      hide Represents;
      if size >= Prime(numBuckets) {
        Rehash();
      }
      assert forall i :: 0 <= i < |nodes| ==> nodes[i] in old(nodes);
      var hash := HashStr(key);
      var index := BucketIndex(hash, buckets.Length);
      var pair, pos := FindPair(index, key, hash);
      if pair != null {
        ReplaceValue(pair, value, pos);
      } else {
        AddPair(index, key, hash, serial, value);
      }
    }

    method Get(key: CString) returns (value: Option<Value>)
      requires Valid()
      ensures value == if key in model then Some(model[key].value) else None
    {
      var hash := HashStr(key);
      var pair, _ := FindPair(BucketIndex(hash, buckets.Length), key, hash);
      value := if pair == null then None else Some(pair.value);
    }

    /** Takes the pair at position `pos` out of its bucket and out of the list. */
    method Unlink(index: nat, pair: Link, ghost pos: int, ghost nodes': seq<Link>)
      requires Shaped() && Removed(nodes, pos, nodes') && nodes[pos] == pair
      requires index == BucketIndex(pair.hash, buckets.Length)
      modifies `nodes, `runs, buckets, list`prev, list`next, nodes`prev, nodes`next
      ensures Shaped() && nodes == nodes'
    {
      var b := buckets[index];
      LinkedDistinct(list, nodes);
      assert pair.prev == At(list, nodes, pos - 1) && pair.next == At(list, nodes, pos + 1);
      hide RunOk;
      RemoveKeepsBuckets(list, nodes, buckets[..], runs, index, pos, nodes');
      if pair == b.first && pair == b.last {
        buckets[index] := Bucket(list, list);
      } else if pair == b.first {
        buckets[index] := Bucket(pair.next, b.last);
      } else if pair == b.last {
        buckets[index] := Bucket(b.first, pair.prev);
      }
      assert buckets[..] == old(buckets[..])[index := BucketAfterRemove(list, b, pair, pair.prev, pair.next)];
      ListRemove(pair, list, nodes, pos, nodes');
      nodes, runs := nodes', RunsAfterRemove(runs, index, pos);
    }

    /** Returns 0, or -1 when the key is absent. */
    method Del(key: CString) returns (r: int)
      requires Valid()
      modifies `size, `nodes, `runs, `model, buckets, list`prev, list`next, nodes`prev, nodes`next
      ensures Valid() && r == (if key in old(model) then 0 else -1)
      ensures model == old(model) - {key}
      ensures forall i :: 0 <= i < |nodes| ==> nodes[i] in old(nodes)
    {
      hide Linked;
      hide BucketsOk;
      hide Represents;
      var hash := HashStr(key);
      var index := BucketIndex(hash, buckets.Length);
      var pair, pos := FindPair(index, key, hash);
      if pair == null {
        assert model == model - {key};
        return -1;
      }
      ghost var nodes' := RemoveAt(nodes, pos);
      RemoveRepresents(nodes, pos, nodes', model);
      Unlink(index, pair, pos, nodes');
      size := size - 1;
      model := model - {key};
      return 0;
    }

    method Clear()
      requires Valid()
      modifies `size, `nodes, `runs, `model, buckets, list`prev, list`next
      ensures Valid() && model == map[] && nodes == []
    {
      hide RunOk;
      hide Represents;
      for i := 0 to buckets.Length
        invariant forall j :: 0 <= j < i ==> buckets[j] == Bucket(list, list)
      {
        buckets[i] := Bucket(list, list);
      }
      list.next, list.prev := list, list;
      size := 0;
      EmptyTable(list, buckets[..]);
      assert Represents([], map[]) by { EmptyModel(); }
      nodes, runs, model := [], seq(buckets.Length, _ => Run(0, 0)), map[];
    }

    method IterNext(iter: Link, ghost i: int) returns (next: Link?)
      requires Valid() && -1 <= i < |nodes| && iter == At(list, nodes, i)
      ensures next == if i + 1 == |nodes| then null else nodes[i + 1]
    {
      assert iter.next == At(list, nodes, i + 1);
      next := if iter.next == list then null else iter.next;
    }

    /** The json_object_foreach loop: it meets every entry exactly once. */
    method Entries() returns (keys: seq<CString>, values: seq<Value>)
      requires Valid()
      ensures Lists(keys, values, model)
    {
      hide Shaped;
      hide Represents;
      keys, values := [], [];
      var iter := IterNext(list, -1);
      while iter != null
        invariant |keys| == |values| <= |nodes|
        invariant iter == if |keys| == |nodes| then null else nodes[|keys|]
        invariant forall i :: 0 <= i < |keys| ==> keys[i] == nodes[i].key && values[i] == nodes[i].value
        decreases |nodes| - |keys|
      {
        ghost var i := |keys|;
        keys, values := keys + [iter.key], values + [iter.value];
        iter := IterNext(iter, i);
      }
      ListingIsComplete(nodes, model, keys, values);
    }
  }

  // ------------------------------------------------- whole runs

  datatype Op = Set(key: CString, serial: nat, value: Value) | Get(key: CString) | Del(key: CString) | Clear

  datatype Answer = Done | Found(value: Option<Value>) | Deleted(status: int)

  ghost function ModelAfter(m: Model, op: Op): Model {
    match op
    case Set(key, serial, value) => m[key := Entry(if key in m then m[key].serial else serial, value)]
    case Get(_) => m
    case Del(key) => m - {key}
    case Clear => map[]
  }

  ghost function AnswerOf(m: Model, op: Op): Answer {
    match op
    case Get(key) => Found(if key in m then Some(m[key].value) else None)
    case Del(key) => Deleted(if key in m then 0 else -1)
    case _ => Done
  }

  ghost function ModelRun(m: Model, ops: seq<Op>): Model
    decreases |ops|
  {
    if ops == [] then m else ModelAfter(ModelRun(m, ops[..|ops| - 1]), ops[|ops| - 1])
  }

  method Perform(t: Hashtable, op: Op) returns (answer: Answer)
    requires t.Valid() && (op.Set? ==> t.size < Prime(t.numBuckets) || t.numBuckets + 1 < |PRIMES|)
    modifies t, t.buckets, t.list, t.nodes
    ensures t.Valid() && (t.buckets == old(t.buckets) || fresh(t.buckets))
    ensures forall i :: 0 <= i < |t.nodes| ==> t.nodes[i] in old(t.nodes) || fresh(t.nodes[i])
    ensures t.model == ModelAfter(old(t.model), op) && answer == AnswerOf(old(t.model), op)
  {
    hide Hashtable.Shaped;
    hide Represents;
    match op
    case Set(key, serial, value) =>
      t.Set(key, serial, value);
      answer := Done;
    case Get(key) =>
      var value := t.Get(key);
      answer := Found(value);
    case Del(key) =>
      var status := t.Del(key);
      answer := Deleted(status);
    case Clear =>
      t.Clear();
      answer := Done;
  }

  lemma RunExtends(m: Model, ops: seq<Op>, n: int)
    requires 0 <= n < |ops|
    ensures ModelRun(m, ops[..n + 1]) == ModelAfter(ModelRun(m, ops[..n]), ops[n])
  {
    assert ops[..n + 1][..n] == ops[..n];
  }

  lemma LastPrime()
    ensures |PRIMES| == 29 && Prime(28) == 1610612741
  {
  }

  /** Any run of operations, with whatever rehashes it causes, answers exactly as the plain map does. A map with as many
      keys as the largest prime cannot take another set: the table has no next size. */
  method PerformAll(t: Hashtable, ops: seq<Op>) returns (answers: seq<Answer>)
    requires t.Valid()
    requires forall i :: 0 <= i < |ops| && ops[i].Set? ==> |ModelRun(t.model, ops[..i])| < 1610612741
    modifies t, t.buckets, t.list, t.nodes
    ensures t.Valid() && t.size == |t.model| && t.model == ModelRun(old(t.model), ops)
    ensures |answers| == |ops|
    ensures forall i :: 0 <= i < |ops| ==> answers[i] == AnswerOf(ModelRun(old(t.model), ops[..i]), ops[i])
  {
    hide Hashtable.Shaped;
    hide Represents;
    hide ModelAfter;
    hide AnswerOf;
    answers := [];
    assert ModelRun(t.model, ops[..0]) == t.model;
    hide ModelRun;
    for n := 0 to |ops|
      invariant t.Valid() && (t.buckets == old(t.buckets) || fresh(t.buckets))
      invariant forall i :: 0 <= i < |t.nodes| ==> t.nodes[i] in old(t.nodes) || fresh(t.nodes[i])
      invariant t.model == ModelRun(old(t.model), ops[..n]) && |answers| == n
      invariant forall i :: 0 <= i < n ==> answers[i] == AnswerOf(ModelRun(old(t.model), ops[..i]), ops[i])
    {
      LastPrime();
      SizeIsModelSize(t);
      InRange(t);
      RunExtends(old(t.model), ops, n);
      var answer := Perform(t, ops[n]);
      answers := answers + [answer];
    }
    SizeIsModelSize(t);
    assert ops[..|ops|] == ops;
  }

  lemma SizeIsModelSize(t: Hashtable)
    requires t.Valid()
    ensures t.size == |t.model|
  {
  }

  lemma InRange(t: Hashtable)
    requires t.Valid()
    ensures t.numBuckets < |PRIMES|
  {
  }
}
