/** The chained hash table: nodes in memory, threaded per bucket, and the finite map they stand for.
    Keys are byte strings. */
module HashTable {
  import opened Bits
  import opened Sequences

  const OFFSET_BASIS: nat := 14695981039346656037
  const PRIME: nat := 1099511628211
  const WORD: nat := 0x1_0000_0000_0000_0000

  type Key = seq<nat>

  datatype Node = Node(key: Key, data: nat, next: nat, prev: nat)

  /** Node memory, by address. */
  type Nodes = map<nat, Node>

  // ------------------------------------------------------------------------------------ hashing

  /** FNV-1a over 64 bits: of the bytes so far, exclusive or with the next byte, times the prime. */
  function Hash(key: Key): nat {
    if key == [] then OFFSET_BASIS else HashStep(Hash(key[..|key| - 1]), key[|key| - 1])
  }

  function HashStep(hash: nat, byte: nat): nat {
    (Xor(hash, byte) * PRIME) % WORD
  }

  /** The inverse of the prime, which is odd, modulo 2^64. */
  const INVERSE: nat := 0xCE96_5057_AFF6_957B

  /** Multiplying by the prime loses nothing. */
  lemma ProductUndone(x: nat)
    requires x < WORD
    ensures (x * PRIME) % WORD * INVERSE % WORD == x
  {
    var q, r := (x * PRIME) / WORD, (x * PRIME) % WORD;
    var k := 887285111055;
    assert PRIME * INVERSE == 1 + k * WORD;
    assert r * INVERSE == (x * PRIME) * INVERSE - (q * WORD) * INVERSE;
    assert (x * PRIME) * INVERSE == x * (PRIME * INVERSE) == x + (x * k) * WORD;
    assert (q * WORD) * INVERSE == (q * INVERSE) * WORD;
    DivModUnique(r * INVERSE, WORD, x * k - q * INVERSE, x);
  }

  lemma Pow2OfFour()
    ensures Pow2(4) == 16
  {
  }

  lemma WordIsPower()
    ensures Pow2(64) == WORD
  {
    hide Pow2;
    Pow2OfFour();
    Pow2Sum(4, 4);
    Pow2Sum(8, 8);
    Pow2Sum(16, 16);
    Pow2Sum(32, 32);
  }

  lemma StepFits(hash: nat, byte: nat)
    requires hash < WORD && byte < 256
    ensures Xor(hash, byte) < WORD
  {
    hide Xor, Pow2;
    WordIsPower();
    XorBelow(hash, byte, 64);
  }

  /** A step keeps different hashes apart, and different bytes. */
  lemma StepApart(hash: nat, byte: nat, hash': nat, byte': nat)
    requires hash < WORD && hash' < WORD && byte < 256 && byte' < 256
    requires (hash != hash' && byte == byte') || (hash == hash' && byte != byte')
    ensures HashStep(hash, byte) != HashStep(hash', byte')
  {
    hide Xor;
    StepFits(hash, byte);
    StepFits(hash', byte');
    XorCancels(hash, byte);
    XorCancels(hash', byte');
    XorSymmetric(hash, byte);
    XorSymmetric(hash', byte');
    XorCancels(byte, hash);
    XorCancels(byte', hash');
    assert Xor(hash, byte) != Xor(hash', byte');
    ProductUndone(Xor(hash, byte));
    ProductUndone(Xor(hash', byte'));
  }

  predicate Bytes(key: Key) {
    forall i :: 0 <= i < |key| ==> key[i] < 256
  }

  lemma HashFits(key: Key)
    ensures Hash(key) < WORD
  {
  }

  /** Keys that differ in one byte never have the same hash. */
  lemma {:induction false} OneByteApart(key: Key, i: nat, byte: nat)
    requires Bytes(key) && i < |key| && byte < 256 && byte != key[i]
    ensures Hash(key[i := byte]) != Hash(key)
    decreases |key|
  {
    hide HashStep;
    var n, other := |key| - 1, key[i := byte];
    HashFits(key[..n]);
    HashFits(other[..n]);
    if i < n {
      OneByteApart(key[..n], i, byte);
      assert other[..n] == key[..n][i := byte];
    } else {
      assert other[..n] == key[..n];
    }
    StepApart(Hash(key[..n]), key[n], Hash(other[..n]), other[n]);
  }

  /** Two published values of FNV-1a over 64 bits: of no bytes, and of the letter a. */
  lemma KnownHashes()
    ensures Hash([]) == 0xCBF2_9CE4_8422_2325 && Hash([0x61]) == 0xAF63_DC4C_8601_EC8C
  {
    hide Xor;
    XorZero(0x197_E539_C908_4446);
    XorStep(0x32F_CA73_9210_888C, 0x1);
    XorStep(0x65F_94E7_2421_1119, 0x3);
    XorStep(0xCBF_29CE_4842_2232, 0x6);
    XorStep(0x197E_539C_9084_4464, 0xC);
    XorStep(0x32FC_A739_2108_88C9, 0x18);
    XorStep(0x65F9_4E72_4211_1192, 0x30);
    XorStep(0xCBF2_9CE4_8422_2325, 0x61);
    assert Xor(OFFSET_BASIS, 0x61) == 0xCBF2_9CE4_8422_2344;
    assert [0x61][..0] == [];
  }

  /** The bucket a key belongs to. */
  function Bucket(key: Key, buckets: nat): nat
    requires buckets > 0
  {
    And(Hash(key), buckets - 1)
  }

  lemma {:induction false} AndSelf(a: nat)
    ensures And(a, a) == a
  {
    if a != 0 { AndSelf(a / 2); }
  }

  /** The test of hash_table_init passes exactly the powers of two. */
  lemma {:induction false} PowerOfTwoExactly(v: nat)
    requires v > 0
    ensures And(v, v - 1) == 0 <==> exists k: nat :: v == Pow2(k)
  {
    hide And, Pow2;
    Pow2Step(0);
    if v == 1 {
      AndZero(1);
      assert v == Pow2(0);
    } else if v % 2 == 1 {
      OddAnd(v);
      forall k: nat ensures v != Pow2(k) { Pow2Step(k); }
    } else {
      PowerOfTwoExactly(v / 2);
      EvenAnd(v);
      if And(v, v - 1) == 0 {
        var k: nat :| v / 2 == Pow2(k);
        Pow2Step(k + 1);
        assert v == Pow2(k + 1);
      }
      forall k: nat | v == Pow2(k) ensures And(v, v - 1) == 0 {
        Pow2Step(k);
        assert v / 2 == Pow2(k - 1);
      }
    }
  }

  lemma OddAnd(v: nat)
    requires v > 1 && v % 2 == 1
    ensures And(v, v - 1) > 0
  {
    assert (v - 1) / 2 == v / 2;
    AndSelf(v / 2);
  }

  lemma EvenAnd(v: nat)
    requires v > 0 && v % 2 == 0
    ensures And(v, v - 1) == 2 * And(v / 2, v / 2 - 1)
  {
    assert (v - 1) / 2 == v / 2 - 1;
  }

  lemma BucketInRange(key: Key, buckets: nat, k: nat)
    requires buckets == Pow2(k)
    ensures Bucket(key, buckets) < buckets && Bucket(key, buckets) == Hash(key) % buckets
  {
    AndMask(Hash(key), k);
  }

  method HashFunction(key: Key) returns (hash: nat)
    ensures hash == Hash(key)
  {
    hash := OFFSET_BASIS;
    for i := 0 to |key|
      invariant hash == Hash(key[..i])
    {
      assert key[..i + 1][..i] == key[..i];
      hash := (Xor(hash, key[i]) * PRIME) % WORD;
    }
    assert key[..|key|] == key;
  }

  // ------------------------------------------------------------------------------------- chains

  /** The links of a bucket follow the sequence. */
  ghost predicate Chain(nodes: Nodes, head: nat, s: seq<nat>) {
    && Distinct(s) && NULL !in s && head == At(s, 0)
    && (forall i :: 0 <= i < |s| ==>
          s[i] in nodes && nodes[s[i]].next == At(s, i + 1) && nodes[s[i]].prev == At(s, i - 1))
  }

  /** A new node in front of a chain. */
  function Pushed(nodes: Nodes, head: nat, a: nat, key: Key, data: nat): Nodes
    requires head != NULL ==> head in nodes
  {
    var n1 := nodes[a := Node(key, data, head, NULL)];
    if head != NULL then n1[head := n1[head].(prev := a)] else n1
  }

  /** hash_table_remove with the link in front of the node tested before it is followed; the node
      itself is freed. */
  function Unlinked(nodes: Nodes, a: nat): Nodes
    requires a in nodes && (nodes[a].prev != NULL ==> nodes[a].prev in nodes)
    requires nodes[a].next != NULL ==> nodes[a].next in nodes
  {
    var p, n := nodes[a].prev, nodes[a].next;
    var n1 := if p != NULL then nodes[p := nodes[p].(next := n)] else nodes;
    var n2 := if n != NULL then n1[n := n1[n].(prev := p)] else n1;
    n2 - {a}
  }

  lemma ChainEnds(nodes: Nodes, head: nat, s: seq<nat>, k: nat)
    requires Chain(nodes, head, s) && k < |s|
    ensures s[k] in nodes && nodes[s[k]].prev == At(s, k - 1) && nodes[s[k]].next == At(s, k + 1)
    ensures k > 0 ==> s[k - 1] in nodes && s[k - 1] != NULL && s[k - 1] in s
    ensures k + 1 < |s| ==> s[k + 1] in nodes && s[k + 1] != NULL && s[k + 1] in s
    ensures s[k] != At(s, k - 1) && s[k] != At(s, k + 1) && s[k] in s
  {
  }

  lemma PushedChain(nodes: Nodes, head: nat, s: seq<nat>, a: nat, key: Key, data: nat)
    requires Chain(nodes, head, s) && a !in nodes && a != NULL
    ensures head != NULL ==> head in nodes && head in s
    ensures Chain(Pushed(nodes, head, a, key, data), a, [a] + s)
  {
  }

  /** What unlinking leaves of every other node. */
  lemma UnlinkedFields(nodes: Nodes, a: nat)
    requires a in nodes && a != nodes[a].prev && a != nodes[a].next
    requires (nodes[a].prev != NULL ==> nodes[a].prev in nodes) && (nodes[a].next != NULL ==> nodes[a].next in nodes)
    ensures var n', p, n := Unlinked(nodes, a), nodes[a].prev, nodes[a].next;
      && n'.Keys == nodes.Keys - {a}
      && (forall x :: x in n' ==> n'[x] == nodes[x].(next := if x == p && p != NULL then n else nodes[x].next,
                                                     prev := if x == n && n != NULL then p else nodes[x].prev))
  {
  }

  lemma UnlinkedChain(nodes: Nodes, head: nat, s: seq<nat>, k: nat)
    requires Chain(nodes, head, s) && k < |s|
    ensures s[k] in nodes && (nodes[s[k]].prev != NULL ==> nodes[s[k]].prev in nodes)
    ensures nodes[s[k]].next != NULL ==> nodes[s[k]].next in nodes
    ensures Chain(Unlinked(nodes, s[k]), if k > 0 then head else At(s, k + 1), Cut(s, k))
  {
    hide Unlinked, Cut;
    ChainEnds(nodes, head, s, k);
    UnlinkedFields(nodes, s[k]);
    CutShape(s, k);
    var n', t := Unlinked(nodes, s[k]), Cut(s, k);
    forall i | 0 <= i < |t| ensures t[i] in n' && n'[t[i]].next == At(t, i + 1) && n'[t[i]].prev == At(t, i - 1) {
      CutParts(s, k, i);
      ChainEnds(nodes, head, s, if i < k then i else i + 1);
    }
  }

  // -------------------------------------------------------------------------------------- table

  ghost predicate Threaded(nodes: Nodes, heads: seq<nat>, chains: seq<seq<nat>>) {
    |heads| == |chains| && forall i :: 0 <= i < |chains| ==> Chain(nodes, heads[i], chains[i])
  }

  /** Every node is in the bucket its key hashes to. */
  ghost predicate Placed(nodes: Nodes, chains: seq<seq<nat>>) {
    forall i, a :: 0 <= i < |chains| && a in chains[i] ==> a in nodes && Bucket(nodes[a].key, |chains|) == i
  }

  /** The node at the address is in the key's bucket and has the key. */
  ghost predicate Has(nodes: Nodes, chains: seq<seq<nat>>, key: Key, a: nat) {
    && |chains| > 0 && Bucket(key, |chains|) < |chains| && a in chains[Bucket(key, |chains|)]
    && a in nodes && nodes[a].key == key
  }

  /** No key twice, and the nodes hold exactly the pairs of the map. */
  ghost predicate Refines(nodes: Nodes, chains: seq<seq<nat>>, contents: map<Key, nat>) {
    && (forall key, a, b :: Has(nodes, chains, key, a) && Has(nodes, chains, key, b) ==> a == b)
    && (forall key, a :: Has(nodes, chains, key, a) ==> key in contents && contents[key] == nodes[a].data)
    && (forall key :: key in contents ==> exists a :: Has(nodes, chains, key, a))
  }

  ghost predicate Sound(nodes: Nodes, heads: seq<nat>, chains: seq<seq<nat>>, contents: map<Key, nat>) {
    Threaded(nodes, heads, chains) && Placed(nodes, chains) && Refines(nodes, chains, contents)
  }

  /** A chain whose nodes keep their links stays one. */
  lemma ChainKept(nodes: Nodes, n': Nodes, head: nat, s: seq<nat>)
    requires Chain(nodes, head, s)
    requires forall a :: a in s ==> a in n' && n'[a].next == nodes[a].next && n'[a].prev == nodes[a].prev
    ensures Chain(n', head, s)
  {
  }

  lemma ChainsApart(nodes: Nodes, chains: seq<seq<nat>>, i: nat, j: nat, a: nat)
    requires Placed(nodes, chains) && i < |chains| && j < |chains| && a in chains[i] && i != j
    ensures a !in chains[j]
  {
    assert Bucket(nodes[a].key, |chains|) == i;
  }

  /** A node for a key that is not in the table. */
  lemma PushKeeps(nodes: Nodes, heads: seq<nat>, chains: seq<seq<nat>>, contents: map<Key, nat>, a: nat, key: Key,
                  data: nat, b: nat)
    requires Sound(nodes, heads, chains, contents) && key !in contents && a !in nodes && a != NULL
    requires |chains| > 0 && b == Bucket(key, |chains|) < |chains|
    ensures heads[b] != NULL ==> heads[b] in nodes
    ensures Sound(Pushed(nodes, heads[b], a, key, data), heads[b := a], chains[b := [a] + chains[b]],
                  contents[key := data])
  {
    hide Chain, Bucket, Refines;
    var s, ts := chains[b], chains[b := [a] + chains[b]];
    PushedChain(nodes, heads[b], s, a, key, data);
    var n' := Pushed(nodes, heads[b], a, key, data);
    assert forall x :: x in nodes ==> x in n' && n'[x].key == nodes[x].key && n'[x].data == nodes[x].data;
    forall i | 0 <= i < |ts| ensures Chain(n', heads[b := a][i], ts[i]) {
      if i != b {
        forall x | x in chains[i] ensures x in n' && n'[x].next == nodes[x].next && n'[x].prev == nodes[x].prev {
          if x == heads[b] { ChainsApart(nodes, chains, i, b, x); }
        }
        ChainKept(nodes, n', heads[i], chains[i]);
      }
    }
    PushedRefines(nodes, n', chains, contents, a, key, data, b);
  }

  lemma PushedRefines(nodes: Nodes, n': Nodes, chains: seq<seq<nat>>, contents: map<Key, nat>, a: nat, key: Key,
                      data: nat, b: nat)
    requires Placed(nodes, chains) && Refines(nodes, chains, contents) && key !in contents && a !in nodes
    requires |chains| > 0 && b == Bucket(key, |chains|) < |chains|
    requires n'.Keys == nodes.Keys + {a} && n'[a].key == key && n'[a].data == data
    requires forall x :: x in nodes ==> n'[x].key == nodes[x].key && n'[x].data == nodes[x].data
    ensures var ts := chains[b := [a] + chains[b]]; Placed(n', ts) && Refines(n', ts, contents[key := data])
  {
    hide Bucket;
    var ts, more := chains[b := [a] + chains[b]], contents[key := data];
    forall k, x ensures Has(n', ts, k, x) <==> Has(nodes, chains, k, x) || (k == key && x == a) { }
    assert Has(n', ts, key, a);
    forall k | k in more ensures exists x :: Has(n', ts, k, x) {
      if k != key { var x :| Has(nodes, chains, k, x); assert Has(n', ts, k, x); }
    }
  }

  /** New data for a key that is in the table. */
  lemma StoreKeeps(nodes: Nodes, heads: seq<nat>, chains: seq<seq<nat>>, contents: map<Key, nat>, a: nat, key: Key,
                   data: nat)
    requires Sound(nodes, heads, chains, contents) && Has(nodes, chains, key, a)
    ensures Sound(nodes[a := nodes[a].(data := data)], heads, chains, contents[key := data])
  {
    hide Chain, Bucket;
    var n' := nodes[a := nodes[a].(data := data)];
    forall i | 0 <= i < |chains| ensures Chain(n', heads[i], chains[i]) {
      ChainKept(nodes, n', heads[i], chains[i]);
    }
    forall k, x ensures Has(n', chains, k, x) <==> Has(nodes, chains, k, x) { }
    var more := contents[key := data];
    forall k | k in more ensures exists x :: Has(n', chains, k, x) {
      if k == key {
        assert Has(n', chains, key, a);
      } else {
        var x :| Has(nodes, chains, k, x);
        assert Has(n', chains, k, x);
      }
    }
  }

  /** Unlinking node k of bucket b leaves every bucket threaded. */
  lemma UnlinkThreads(nodes: Nodes, heads: seq<nat>, chains: seq<seq<nat>>, b: nat, k: nat, hs: seq<nat>)
    requires Threaded(nodes, heads, chains) && Placed(nodes, chains) && b < |chains| && k < |chains[b]|
    requires hs == if k == 0 then heads[b := At(chains[b], 1)] else heads
    ensures var a := chains[b][k];
      && a in nodes && (nodes[a].prev != NULL ==> nodes[a].prev in nodes)
      && (nodes[a].next != NULL ==> nodes[a].next in nodes)
      && (heads[b] == a <==> k == 0) && nodes[a].next == At(chains[b], k + 1)
      && Threaded(Unlinked(nodes, a), hs, chains[b := Cut(chains[b], k)])
  {
    hide Bucket, Unlinked, Cut;
    var s, a := chains[b], chains[b][k];
    ChainEnds(nodes, heads[b], s, k);
    UnlinkedChain(nodes, heads[b], s, k);
    UnlinkedFields(nodes, a);
    var n', ts := Unlinked(nodes, a), chains[b := Cut(s, k)];
    forall i | 0 <= i < |ts| ensures Chain(n', hs[i], ts[i]) {
      if i != b {
        forall x | x in chains[i] ensures x in n' && n'[x].next == nodes[x].next && n'[x].prev == nodes[x].prev {
          ChainsApart(nodes, chains, i, b, x);
        }
        ChainKept(nodes, n', heads[i], chains[i]);
      }
    }
  }

  /** The nodes without one of them stand for the map without its key. */
  lemma CutRefines(nodes: Nodes, n': Nodes, chains: seq<seq<nat>>, contents: map<Key, nat>, key: Key, b: nat, k: nat,
                   a: nat)
    requires Placed(nodes, chains) && Refines(nodes, chains, contents)
    requires |chains| > 0 && b == Bucket(key, |chains|) < |chains|
    requires k < |chains[b]| && chains[b][k] == a && Has(nodes, chains, key, a)
    requires n'.Keys == nodes.Keys - {a}
    requires forall x :: x in n' ==> n'[x].key == nodes[x].key && n'[x].data == nodes[x].data
    requires forall x :: x in Cut(chains[b], k) <==> x in chains[b] && x != a
    ensures var ts := chains[b := Cut(chains[b], k)]; Placed(n', ts) && Refines(n', ts, contents - {key})
  {
    hide Bucket, Cut;
    var ts := chains[b := Cut(chains[b], k)];
    forall i, y | 0 <= i < |ts| && y in ts[i] ensures y in n' && Bucket(n'[y].key, |ts|) == i {
      assert y in chains[i];
      if i != b { ChainsApart(nodes, chains, i, b, y); }
    }
    forall x, y ensures Has(n', ts, x, y) <==> Has(nodes, chains, x, y) && y != a { }
    var rest := contents - {key};
    forall x | x in rest ensures exists y :: Has(n', ts, x, y) {
      var y :| Has(nodes, chains, x, y);
      assert Has(n', ts, x, y);
    }
  }

  /** Removing the node of a key removes the key. */
  lemma UnlinkKeeps(nodes: Nodes, heads: seq<nat>, chains: seq<seq<nat>>, contents: map<Key, nat>, key: Key, b: nat,
                    k: nat, a: nat, hs: seq<nat>)
    requires Sound(nodes, heads, chains, contents) && |chains| > 0 && b == Bucket(key, |chains|) < |chains|
    requires k < |chains[b]| && a == chains[b][k] && Has(nodes, chains, key, a)
    requires hs == if k == 0 then heads[b := At(chains[b], 1)] else heads
    ensures a in nodes && (nodes[a].prev != NULL ==> nodes[a].prev in nodes)
    ensures nodes[a].next != NULL ==> nodes[a].next in nodes
    ensures (heads[b] == a <==> k == 0) && nodes[a].next == At(chains[b], k + 1)
    ensures nodes[a].prev == At(chains[b], k - 1)
    ensures Sound(Unlinked(nodes, a), hs, chains[b := Cut(chains[b], k)], contents - {key})
  {
    hide Bucket, Unlinked, Cut, Placed, Refines, Chain;
    UnlinkThreads(nodes, heads, chains, b, k, hs);
    ChainEnds(nodes, heads[b], chains[b], k);
    UnlinkedFields(nodes, a);
    ChainShape(nodes, heads[b], chains[b]);
    CutShape(chains[b], k);
    CutRefines(nodes, Unlinked(nodes, a), chains, contents, key, b, k, a);
  }

  lemma ChainShape(nodes: Nodes, head: nat, s: seq<nat>)
    requires Chain(nodes, head, s)
    ensures Distinct(s) && NULL !in s
  {
  }

  // ------------------------------------------------------------------------------------ removal

  /** hash_table_remove as it is written follows the link in front of a bucket's head untested. */
  ghost predicate RemoveFaults(nodes: Nodes, heads: seq<nat>, a: nat, b: nat)
    requires a in nodes && b < |heads|
  {
    heads[b] == a && nodes[a].next == NULL
  }

  /** It does so exactly when the key removed is the only one in its bucket. */
  lemma RemoveFaultsExactly(nodes: Nodes, heads: seq<nat>, chains: seq<seq<nat>>, contents: map<Key, nat>, key: Key,
                            a: nat)
    requires Sound(nodes, heads, chains, contents) && Has(nodes, chains, key, a)
    ensures RemoveFaults(nodes, heads, a, Bucket(key, |chains|)) <==>
            forall k :: k in contents && Bucket(k, |chains|) == Bucket(key, |chains|) ==> k == key
  {
    hide Bucket;
    var b := Bucket(key, |chains|);
    var s := chains[b];
    ChainEnds(nodes, heads[b], s, 0);
    if |s| > 1 {
      ChainEnds(nodes, heads[b], s, 1);
      var other := if s[0] == a then s[1] else s[0];
      assert other in s && Has(nodes, chains, nodes[other].key, other);
      assert nodes[other].key in contents && nodes[other].key != key;
    } else {
      forall k | k in contents && Bucket(k, |chains|) == b ensures k == key {
        var x :| Has(nodes, chains, k, x);
      }
    }
  }

  // ----------------------------------------------------------------------------------- in place

  lemma SameBucket(key: Key, buckets: nat, hash: nat, b: nat)
    requires buckets > 0 && hash == Hash(key) && b == And(hash, buckets - 1)
    ensures b == Bucket(key, buckets)
  {
  }

  lemma BucketChain(nodes: Nodes, heads: seq<nat>, chains: seq<seq<nat>>, contents: map<Key, nat>, b: nat)
    requires Sound(nodes, heads, chains, contents) && b < |chains|
    ensures b < |heads| && Chain(nodes, heads[b], chains[b])
  {
  }

  lemma FoundKey(nodes: Nodes, heads: seq<nat>, chains: seq<seq<nat>>, contents: map<Key, nat>, key: Key, b: nat,
                 k: nat)
    requires Sound(nodes, heads, chains, contents) && |chains| > 0 && b == Bucket(key, |chains|) < |chains|
    requires k < |chains[b]|
    requires chains[b][k] in nodes && nodes[chains[b][k]].key == key
    ensures Has(nodes, chains, key, chains[b][k]) && key in contents && contents[key] == nodes[chains[b][k]].data
  {
    assert Has(nodes, chains, key, chains[b][k]);
  }

  lemma MissingKey(nodes: Nodes, heads: seq<nat>, chains: seq<seq<nat>>, contents: map<Key, nat>, key: Key, b: nat)
    requires Sound(nodes, heads, chains, contents) && |chains| > 0 && b == Bucket(key, |chains|) < |chains|
    requires forall j :: 0 <= j < |chains[b]| ==> chains[b][j] in nodes && nodes[chains[b][j]].key != key
    ensures key !in contents
  {
  }

  class Table {
    var buckets: array<nat>
    var nodes: Nodes

    ghost var bits: nat
    ghost var chains: seq<seq<nat>>
    ghost var contents: map<Key, nat>

    ghost predicate Valid()
      reads this, buckets
    {
      buckets.Length == |chains| == Pow2(bits) && Sound(nodes, buckets[..], chains, contents)
    }

    /** A table of empty buckets. */
    constructor (bucketCount: nat, ghost bits: nat)
      requires bucketCount == Pow2(bits)
      ensures Valid() && contents == map[] && fresh(buckets) && nodes == map[] && |chains| == bucketCount
    {
      buckets := new nat[bucketCount](_ => NULL);
      nodes := map[];
      this.bits, chains, contents := bits, seq(bucketCount, _ => []), map[];
    }

    /** find_node: the node of a key, if the table has the key. */
    method FindNode(key: Key) returns (a: nat, b: nat, ghost k: nat)
      requires Valid()
      ensures b == Bucket(key, |chains|) < |chains|
      ensures a == NULL <==> key !in contents
      ensures a != NULL ==>
                k < |chains[b]| && chains[b][k] == a && Has(nodes, chains, key, a) && contents[key] == nodes[a].data
    {
      hide Sound, Bucket;
      var hash := HashFunction(key);
      b := And(hash, buckets.Length - 1);
      assert b == Bucket(key, |chains|) by { SameBucket(key, |chains|, hash, b); }
      BucketInRange(key, |chains|, bits);
      BucketChain(nodes, buckets[..], chains, contents, b);
      ghost var s := chains[b];
      a := buckets[b];
      k := 0;
      while a != NULL
        invariant 0 <= k <= |s| && a == At(s, k)
        invariant forall j :: 0 <= j < k ==> s[j] in nodes && nodes[s[j]].key != key
        decreases |s| - k
      {
        ChainEnds(nodes, buckets[b], s, k);
        if nodes[a].key == key {
          FoundKey(nodes, buckets[..], chains, contents, key, b, k);
          return;
        }
        a := nodes[a].next;
        k := k + 1;
      }
      MissingKey(nodes, buckets[..], chains, contents, key, b);
    }

    /** hash_table_get. */
    method Get(key: Key) returns (data: Option<nat>)
      requires Valid()
      ensures data == if key in contents then Some(contents[key]) else None
    {
      var a, b, k := FindNode(key);
      return if a == NULL then None else Some(nodes[a].data);
    }

    /** hash_table_contains. */
    method Contains(key: Key) returns (r: bool)
      requires Valid()
      ensures r <==> key in contents
    {
      var a, b, k := FindNode(key);
      return a != NULL;
    }

    /** hash_table_set; room is the address a new node gets if one is needed. */
    method Set(key: Key, data: nat, room: nat)
      requires Valid() && room !in nodes && room != NULL
      modifies this, buckets
      ensures Valid() && buckets == old(buckets) && contents == old(contents)[key := data]
      ensures nodes.Keys <= old(nodes).Keys + {room}
    {
      hide Bucket, Sound;
      var a, b, k := FindNode(key);
      if a != NULL {
        StoreKeeps(nodes, buckets[..], chains, contents, a, key, data);
        nodes := nodes[a := nodes[a].(data := data)];
      } else {
        PushKeeps(nodes, buckets[..], chains, contents, room, key, data, b);
        var head := buckets[b];
        nodes := nodes[room := Node(key, data, head, NULL)];
        if head != NULL { nodes := nodes[head := nodes[head].(prev := room)]; }
        ghost var heads := buckets[..];
        buckets[b] := room;
        assert buckets[..] == heads[b := room];
        chains := chains[b := [room] + chains[b]];
      }
      contents := contents[key := data];
    }

    /** hash_table_remove, with the link in front of the node tested before it is followed. */
    method Remove(key: Key) returns (ok: bool)
      requires Valid()
      modifies this, buckets
      ensures Valid() && buckets == old(buckets) && (ok <==> key in old(contents)) && contents == old(contents) - {key}
      ensures nodes.Keys <= old(nodes).Keys
    {
      hide Bucket, Sound;
      var a, b, k := FindNode(key);
      if a == NULL { return false; }
      ghost var heads := buckets[..];
      ghost var hs := if k == 0 then heads[b := At(chains[b], 1)] else heads;
      UnlinkKeeps(nodes, heads, chains, contents, key, b, k, a, hs);
      ghost var n' := Unlinked(nodes, a);
      var p, n := nodes[a].prev, nodes[a].next;
      if buckets[b] == a {
        buckets[b] := n;
        if n != NULL { nodes := nodes[n := nodes[n].(prev := NULL)]; }
      } else {
        if p != NULL { nodes := nodes[p := nodes[p].(next := n)]; }
        if n != NULL { nodes := nodes[n := nodes[n].(prev := p)]; }
      }
      nodes := nodes - {a};
      assert buckets[..] == hs;
      chains := chains[b := Cut(chains[b], k)];
      contents := contents - {key};
      return true;
    }
  }

  /** hash_table_init: refuses a bucket count that is no power of two. */
  method InitTable(bucketCount: nat) returns (table: Table?)
    ensures table == null <==> forall k: nat :: bucketCount != Pow2(k)
    ensures table != null ==> fresh(table) && table.Valid() && table.contents == map[] && |table.chains| == bucketCount
  {
    if bucketCount == 0 { return null; }
    PowerOfTwoExactly(bucketCount);
    if And(bucketCount, bucketCount - 1) != 0 { return null; }
    ghost var k: nat :| bucketCount == Pow2(k);
    table := new Table(bucketCount, k);
  }
}
