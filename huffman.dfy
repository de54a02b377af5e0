/**
 * Huffman coding of a text (HuffmanLab/main.py): count the ASCII
 * characters, merge the two lightest trees until one is left, read a
 * prefix-free code off the tree, and compare its size with a fixed-length
 * code.
 */
module Huffman {
  import opened Wrappers

  // ---------------------------------------------------------------------
  // The tree

  /**
   * `TreeVertex`: a character (`None` for a merged vertex), a weight and
   * two optional children.  `buildTree` sets the children right after
   * creating a vertex and nothing changes a vertex afterwards, so it is a
   * value here.
   */
  datatype TreeVertex = TreeVertex(c: Option<char>, weight: nat, leftChild: Option<TreeVertex>, rightChild: Option<TreeVertex>)

  /** `TreeVertex(ch, weight)`: a vertex without children. */
  function Leaf(ch: char, weight: nat): TreeVertex
  {
    TreeVertex(Some(ch), weight, None, None)
  }

  /** `is_leaf`. */
  predicate IsLeaf(t: TreeVertex)
  {
    t.leftChild.None? && t.rightChild.None?
  }

  /** The characters at the leaves, left to right. */
  function LeafChars(t: TreeVertex): seq<char>
    decreases t
  {
    if IsLeaf(t) then (if t.c.Some? then [t.c.value] else [])
    else (if t.leftChild.Some? then LeafChars(t.leftChild.value) else [])
         + (if t.rightChild.Some? then LeafChars(t.rightChild.value) else [])
  }

  /**
   * A tree as `buildTree` makes them from the counts `counts`: a leaf holds
   * a counted character with its count as weight; a merged vertex holds no
   * character, has both children, and weighs what they weigh together.
   */
  predicate WellBuilt(t: TreeVertex, counts: map<char, nat>)
    decreases t
  {
    match t.c
    case Some(ch) => IsLeaf(t) && ch in counts && t.weight == counts[ch]
    case None =>
      && t.leftChild.Some? && t.rightChild.Some?
      && t.weight == t.leftChild.value.weight + t.rightChild.value.weight
      && WellBuilt(t.leftChild.value, counts) && WellBuilt(t.rightChild.value, counts)
  }

  /** In a built tree `is_leaf` tells the character vertices from the merged ones. */
  lemma LeafIffCharacter(t: TreeVertex, counts: map<char, nat>)
    requires WellBuilt(t, counts)
    ensures IsLeaf(t) <==> t.c.Some?
  {
  }

  // ---------------------------------------------------------------------
  // Counting

  /**
   * A Python dict from characters to counts: the values, and the keys in
   * insertion order (the order `for ch in freqs` visits them).
   */
  datatype Freqs = Freqs(counts: map<char, nat>, order: seq<char>)

  predicate Valid(f: Freqs)
  {
    f.counts.Keys == Elements(f.order) && NoDuplicates(f.order)
  }

  /** `ord(ch) < 128`. */
  predicate IsAscii(ch: char)
  {
    ch as int < 128
  }

  /** The characters of `s` that are counted, in order. */
  function AsciiOnly(s: string): (r: string)
  {
    if s == [] then []
    else AsciiOnly(s[..|s| - 1]) + (if IsAscii(s[|s| - 1]) then [s[|s| - 1]] else [])
  }

  /** The counts of the keys listed in `order`, added up. */
  function SumOver(order: seq<char>, counts: map<char, nat>): nat
    requires forall i :: 0 <= i < |order| ==> order[i] in counts
  {
    if order == [] then 0
    else SumOver(order[..|order| - 1], counts) + counts[order[|order| - 1]]
  }

  /** `sum(freqs.values())`. */
  function TotalCount(f: Freqs): nat
    requires Valid(f)
  {
    SumOver(f.order, f.counts)
  }

  /** Changing the count of a key not listed leaves the sum alone. */
  lemma {:induction false} SumOverOther(order: seq<char>, counts: map<char, nat>, ch: char, v: nat)
    requires forall i :: 0 <= i < |order| ==> order[i] in counts
    requires ch !in order
    ensures SumOver(order, counts[ch := v]) == SumOver(order, counts)
  {
    if order != [] {
      SumOverOther(order[..|order| - 1], counts, ch, v);
    }
  }

  /** Adding one to the count of a key listed once adds one to the sum. */
  lemma {:induction false} SumOverBump(order: seq<char>, counts: map<char, nat>, ch: char)
    requires forall i :: 0 <= i < |order| ==> order[i] in counts
    requires NoDuplicates(order) && ch in order
    ensures SumOver(order, counts[ch := counts[ch] + 1]) == SumOver(order, counts) + 1
  {
    var init := order[..|order| - 1];
    var last := order[|order| - 1];
    if last == ch {
      assert ch !in init;
      SumOverOther(init, counts, ch, counts[ch] + 1);
    } else {
      assert ch in init;
      SumOverBump(init, counts, ch);
    }
  }

  /** The body of the counting loop for an ASCII `ch`: `freqs[ch] += 1`, or `freqs[ch] = 1` for a new key. */
  function Tally(f: Freqs, ch: char): (r: Freqs)
    requires Valid(f)
    ensures Valid(r) && r.counts.Keys == f.counts.Keys + {ch}
    ensures r.counts[ch] == (if ch in f.counts then f.counts[ch] else 0) + 1
    ensures forall x :: x in f.counts && x != ch ==> r.counts[x] == f.counts[x]
    ensures TotalCount(r) == TotalCount(f) + 1
    ensures r.order == if ch in f.counts then f.order else f.order + [ch]
  {
    if ch in f.counts then
      TallyKnown(f, ch);
      f.(counts := f.counts[ch := f.counts[ch] + 1])
    else
      TallyNew(f, ch);
      Freqs(f.counts[ch := 1], f.order + [ch])
  }

  /** `freqs[ch] += 1` on a key already there: the order stays, the total grows by one. */
  lemma TallyKnown(f: Freqs, ch: char)
    requires Valid(f) && ch in f.counts
    ensures var r := f.(counts := f.counts[ch := f.counts[ch] + 1]);
            Valid(r) && TotalCount(r) == TotalCount(f) + 1
  {
    SumOverBump(f.order, f.counts, ch);
  }

  /** `freqs[ch] = 1` on a new key: it goes last in the order, and the total grows by one. */
  lemma TallyNew(f: Freqs, ch: char)
    requires Valid(f) && ch !in f.counts
    ensures var r := Freqs(f.counts[ch := 1], f.order + [ch]);
            Valid(r) && TotalCount(r) == TotalCount(f) + 1
  {
    var r := Freqs(f.counts[ch := 1], f.order + [ch]);
    AppendKey(f.order, ch);
    assert r.counts.Keys == Elements(r.order);
    assert r.order[..|r.order| - 1] == f.order;
    SumOverOther(f.order, f.counts, ch, 1);
    assert SumOver(r.order, r.counts) == SumOver(f.order, r.counts) + 1;
  }

  /** A character not yet listed goes last, once. */
  lemma AppendKey(order: seq<char>, ch: char)
    requires NoDuplicates(order) && ch !in order
    ensures NoDuplicates(order + [ch]) && Elements(order + [ch]) == Elements(order) + {ch}
  {
  }

  /** The characters of `s`, each once, in the order they first occur. */
  function FirstSeen(s: string): (r: seq<char>)
    ensures NoDuplicates(r)
    ensures forall x :: x in r <==> x in s
  {
    if s == [] then []
    else
      var p := FirstSeen(s[..|s| - 1]);
      var last := s[|s| - 1];
      assert forall x :: x in s <==> x in s[..|s| - 1] || x == last by {
        assert s == s[..|s| - 1] + [last];
      }
      if last in p then p else p + [last]
  }

  /**
   * `f` is what counting `s` gives: its keys are the ASCII characters of
   * `s`, each counted as often as it occurs, and the counts add up to the
   * number of ASCII characters.
   */
  predicate CountsOf(f: Freqs, s: string)
  {
    && Valid(f)
    && (forall ch :: ch in f.counts <==> ch in s && IsAscii(ch))
    && (forall ch :: ch in f.counts ==> f.counts[ch] == multiset(s)[ch])
    && TotalCount(f) == |AsciiOnly(s)|
    && f.order == FirstSeen(AsciiOnly(s))
  }

  /** One more ASCII character read: it is tallied. */
  lemma CountsOfAscii(f: Freqs, s: string, ch: char)
    requires CountsOf(f, s) && IsAscii(ch)
    ensures CountsOf(Tally(f, ch), s + [ch])
  {
    var s' := s + [ch];
    var g := Tally(f, ch);
    assert s'[..|s|] == s;
    assert AsciiOnly(s') == AsciiOnly(s) + [ch];
    assert |AsciiOnly(s')| == |AsciiOnly(s)| + 1;
    assert ch in f.counts <==> ch in f.order;
    AsciiKeys(f, g, s, ch);
    AsciiCounts(f, g, s, ch);
  }

  lemma AsciiKeys(f: Freqs, g: Freqs, s: string, ch: char)
    requires forall x :: x in f.counts <==> x in s && IsAscii(x)
    requires IsAscii(ch) && g.counts.Keys == f.counts.Keys + {ch}
    ensures forall x :: x in g.counts <==> x in s + [ch] && IsAscii(x)
  {
    forall x ensures x in g.counts <==> x in s + [ch] && IsAscii(x) {
      assert x in s + [ch] <==> x in s || x == ch;
    }
  }

  lemma AsciiCounts(f: Freqs, g: Freqs, s: string, ch: char)
    requires forall x :: x in f.counts <==> x in s && IsAscii(x)
    requires forall x :: x in f.counts ==> f.counts[x] == multiset(s)[x]
    requires IsAscii(ch) && g.counts.Keys == f.counts.Keys + {ch}
    requires g.counts[ch] == (if ch in f.counts then f.counts[ch] else 0) + 1
    requires forall x :: x in f.counts && x != ch ==> g.counts[x] == f.counts[x]
    ensures forall x :: x in g.counts ==> g.counts[x] == multiset(s + [ch])[x]
  {
    assert multiset(s + [ch]) == multiset(s) + multiset{ch};
  }

  /** One more character beyond ASCII read: it is skipped. */
  lemma CountsOfOther(f: Freqs, s: string, ch: char)
    requires CountsOf(f, s) && !IsAscii(ch)
    ensures CountsOf(f, s + [ch])
  {
    var s' := s + [ch];
    assert s'[..|s|] == s;
    assert AsciiOnly(s') == AsciiOnly(s);
    forall x ensures x in f.counts <==> x in s' && IsAscii(x) {
      assert x in s' <==> x in s || x == ch;
    }
    forall x | x in f.counts ensures f.counts[x] == multiset(s')[x] {
      assert multiset(s') == multiset(s) + multiset{ch};
    }
  }

  /** `countFrequencies` over an in-memory text. */
  method CountFrequencies(text: string) returns (freqs: Freqs)
    ensures CountsOf(freqs, text)
  {
    freqs := Freqs(map[], []);
    for i := 0 to |text|
      invariant CountsOf(freqs, text[..i])
    {
      var ch := text[i];
      assert text[..i + 1] == text[..i] + [ch];
      if IsAscii(ch) {
        CountsOfAscii(freqs, text[..i], ch);
        freqs := Tally(freqs, ch);
      } else {
        CountsOfOther(freqs, text[..i], ch);
      }
    }
    assert text[..|text|] == text;
  }

  // ---------------------------------------------------------------------
  // Building the tree

  /** A priority-queue entry `(weight, counter, vertex)`. */
  datatype QEntry = QEntry(weight: nat, counter: nat, node: TreeVertex)

  /** Tuple order on `(weight, counter)`: `a` comes out of the heap no later than `b`. */
  predicate Before(a: QEntry, b: QEntry)
  {
    a.weight < b.weight || (a.weight == b.weight && a.counter <= b.counter)
  }

  /**
   * `heapq.heappop` on a non-empty queue: an entry first in tuple order
   * comes out, and the rest stay.  Where the heap keeps them is left open.
   */
  method HeapPop(pq: seq<QEntry>) returns (e: QEntry, rest: seq<QEntry>, ghost i: nat)
    requires pq != []
    ensures i < |pq| && e == pq[i] && rest == pq[..i] + pq[i + 1..]
    ensures multiset(pq) == multiset(rest) + multiset{e}
    ensures forall j :: 0 <= j < |pq| ==> Before(e, pq[j])
    ensures forall j :: 0 <= j < |rest| ==> Before(e, rest[j])
  {
    var m := 0;
    for j := 1 to |pq|
      invariant m < j
      invariant forall k :: 0 <= k < j ==> Before(pq[m], pq[k])
    {
      if !Before(pq[m], pq[j]) {
        m := j;
      }
    }
    e, rest, i := pq[m], pq[..m] + pq[m + 1..], m;
    assert pq == pq[..m] + [e] + pq[m + 1..];
    assert forall j :: 0 <= j < |rest| ==> rest[j] == pq[if j < m then j else j + 1];
  }

  /** The characters at the leaves of a queued tree. */
  function EntryLeaves(e: QEntry): multiset<char>
  {
    multiset(LeafChars(e.node))
  }

  /** The characters at the leaves of every queued tree. */
  function QueuedLeaves(pq: seq<QEntry>): multiset<char>
  {
    if pq == [] then multiset{} else QueuedLeaves(pq[..|pq| - 1]) + EntryLeaves(pq[|pq| - 1])
  }

  /** The weights of the queued entries, added up. */
  function QueuedWeight(pq: seq<QEntry>): nat
  {
    if pq == [] then 0 else QueuedWeight(pq[..|pq| - 1]) + pq[|pq| - 1].weight
  }

  lemma {:induction false} QueuedLeavesAppend(a: seq<QEntry>, b: seq<QEntry>)
    ensures QueuedLeaves(a + b) == QueuedLeaves(a) + QueuedLeaves(b)
    decreases |b|
  {
    if b != [] {
      var b', x := b[..|b| - 1], b[|b| - 1];
      assert (a + b)[..|a + b| - 1] == a + b' && (a + b)[|a + b| - 1] == x;
      QueuedLeavesAppend(a, b');
    } else {
      assert a + b == a;
    }
  }

  lemma {:induction false} QueuedWeightAppend(a: seq<QEntry>, b: seq<QEntry>)
    ensures QueuedWeight(a + b) == QueuedWeight(a) + QueuedWeight(b)
    decreases |b|
  {
    if b != [] {
      var b', x := b[..|b| - 1], b[|b| - 1];
      assert (a + b)[..|a + b| - 1] == a + b' && (a + b)[|a + b| - 1] == x;
      QueuedWeightAppend(a, b');
    } else {
      assert a + b == a;
    }
  }

  /** A queue of one entry. */
  lemma QueuedSingle(e: QEntry)
    ensures QueuedLeaves([e]) == EntryLeaves(e) && QueuedWeight([e]) == e.weight
  {
    assert [e][..0] == [];
  }

  /** Taking an entry out of the queue takes its leaves and its weight out. */
  lemma QueuedLeavesSplit(l: seq<QEntry>, e: QEntry, r: seq<QEntry>)
    ensures QueuedLeaves(l + [e] + r) == QueuedLeaves(l + r) + EntryLeaves(e)
  {
    QueuedSingle(e);
    QueuedLeavesAppend(l + [e], r);
    QueuedLeavesAppend(l, [e]);
    QueuedLeavesAppend(l, r);
  }

  lemma QueuedWeightSplit(l: seq<QEntry>, e: QEntry, r: seq<QEntry>)
    ensures QueuedWeight(l + [e] + r) == QueuedWeight(l + r) + e.weight
  {
    QueuedSingle(e);
    QueuedWeightAppend(l + [e], r);
    QueuedWeightAppend(l, [e]);
    QueuedWeightAppend(l, r);
  }

  /**
   * What holds of the queue throughout `buildTree`: every entry carries its
   * tree's weight, every tree is built from `counts`, and the counters are
   * distinct and below the next one to hand out, so no two entries tie.
   */
  ghost predicate QueueInv(pq: seq<QEntry>, counter: nat, counts: map<char, nat>)
  {
    && (forall j :: 0 <= j < |pq| ==> EntryInv(pq[j], counter, counts))
    && (forall j, k :: 0 <= j < k < |pq| ==> pq[j].counter != pq[k].counter)
  }

  ghost predicate EntryInv(e: QEntry, counter: nat, counts: map<char, nat>)
  {
    e.weight == e.node.weight && e.counter < counter && WellBuilt(e.node, counts)
  }

  lemma QueueInvRemove(pq: seq<QEntry>, counter: nat, counts: map<char, nat>, i: nat)
    requires QueueInv(pq, counter, counts) && i < |pq|
    ensures QueueInv(pq[..i] + pq[i + 1..], counter, counts)
  {
    var rest := pq[..i] + pq[i + 1..];
    assert forall j :: 0 <= j < |rest| ==> rest[j] == pq[if j < i then j else j + 1];
  }

  lemma QueueInvPush(pq: seq<QEntry>, counter: nat, counts: map<char, nat>, e: QEntry)
    requires QueueInv(pq, counter, counts)
    requires e.counter == counter && e.weight == e.node.weight && WellBuilt(e.node, counts)
    ensures QueueInv(pq + [e], counter + 1, counts)
  {
  }

  /** The queue the first loop of `buildTree` fills: one leaf per key, in key order, numbered from 0. */
  function SeedEntries(order: seq<char>, counts: map<char, nat>): seq<QEntry>
    requires forall i :: 0 <= i < |order| ==> order[i] in counts
  {
    if order == [] then []
    else
      var ch := order[|order| - 1];
      SeedEntries(order[..|order| - 1], counts) + [QEntry(counts[ch], |order| - 1, Leaf(ch, counts[ch]))]
  }

  /** The `j`-th seeded entry is the leaf of the `j`-th key, with counter `j`. */
  lemma {:induction false} SeedEntriesAt(order: seq<char>, counts: map<char, nat>)
    requires forall i :: 0 <= i < |order| ==> order[i] in counts
    ensures |SeedEntries(order, counts)| == |order|
    ensures forall j :: 0 <= j < |order| ==>
              SeedEntries(order, counts)[j] == QEntry(counts[order[j]], j, Leaf(order[j], counts[order[j]]))
  {
    if order != [] {
      var init := order[..|order| - 1];
      SeedEntriesAt(init, counts);
      assert forall j :: 0 <= j < |init| ==> init[j] == order[j];
    }
  }

  /** The seeded queue holds every key once as a leaf. */
  lemma {:induction false} SeedEntriesLeaves(order: seq<char>, counts: map<char, nat>)
    requires forall i :: 0 <= i < |order| ==> order[i] in counts
    ensures QueuedLeaves(SeedEntries(order, counts)) == multiset(order)
  {
    if order != [] {
      var init, ch := order[..|order| - 1], order[|order| - 1];
      SeedEntriesLeaves(init, counts);
      var pq := SeedEntries(order, counts);
      assert pq[..|pq| - 1] == SeedEntries(init, counts);
      assert LeafChars(pq[|pq| - 1].node) == [ch];
      assert order == init + [ch];
    }
  }

  /** The seeded queue weighs the total count. */
  lemma {:induction false} SeedEntriesWeight(order: seq<char>, counts: map<char, nat>)
    requires forall i :: 0 <= i < |order| ==> order[i] in counts
    ensures QueuedWeight(SeedEntries(order, counts)) == SumOver(order, counts)
  {
    if order != [] {
      var init := order[..|order| - 1];
      SeedEntriesWeight(init, counts);
      var pq := SeedEntries(order, counts);
      assert pq[..|pq| - 1] == SeedEntries(init, counts);
    }
  }

  /** The first loop of `buildTree`. */
  method SeedQueue(freqs: Freqs) returns (pq: seq<QEntry>)
    requires Valid(freqs)
    ensures pq == SeedEntries(freqs.order, freqs.counts)
  {
    pq := [];
    var counter := 0;
    for i := 0 to |freqs.order|
      invariant counter == i
      invariant pq == SeedEntries(freqs.order[..i], freqs.counts)
    {
      var ch := freqs.order[i];
      var node := Leaf(ch, freqs.counts[ch]);
      assert freqs.order[..i + 1][..i] == freqs.order[..i];
      pq := pq + [QEntry(node.weight, counter, node)];
      counter := counter + 1;
    }
    assert freqs.order[..|freqs.order|] == freqs.order;
  }

  /** What taking the `i`-th entry out of the queue keeps and removes. */
  lemma PopFacts(pq: seq<QEntry>, i: nat, counter: nat, counts: map<char, nat>)
    requires QueueInv(pq, counter, counts) && i < |pq|
    ensures var rest := pq[..i] + pq[i + 1..];
            && QueueInv(rest, counter, counts) && EntryInv(pq[i], counter, counts)
            && QueuedLeaves(pq) == QueuedLeaves(rest) + EntryLeaves(pq[i])
            && QueuedWeight(pq) == QueuedWeight(rest) + pq[i].weight
  {
    assert pq == pq[..i] + [pq[i]] + pq[i + 1..];
    QueuedLeavesSplit(pq[..i], pq[i], pq[i + 1..]);
    QueuedWeightSplit(pq[..i], pq[i], pq[i + 1..]);
    QueueInvRemove(pq, counter, counts, i);
  }

  /** The two `heappop` calls of the merging loop: the first entry in `(weight, counter)` order, then the first of the rest. */
  method PopTwo(pq: seq<QEntry>, ghost counter: nat, ghost counts: map<char, nat>) returns (e1: QEntry, e2: QEntry, rest: seq<QEntry>)
    requires |pq| > 1 && QueueInv(pq, counter, counts)
    ensures |rest| == |pq| - 2 && QueueInv(rest, counter, counts)
    ensures EntryInv(e1, counter, counts) && EntryInv(e2, counter, counts)
    ensures forall j :: 0 <= j < |pq| ==> Before(e1, pq[j])
    ensures forall j :: 0 <= j < |rest| ==> Before(e2, rest[j])
    ensures QueuedLeaves(pq) == QueuedLeaves(rest) + EntryLeaves(e1) + EntryLeaves(e2)
    ensures QueuedWeight(pq) == QueuedWeight(rest) + e1.weight + e2.weight
  {
    var pq1;
    ghost var i1, i2;
    e1, pq1, i1 := HeapPop(pq);
    PopFacts(pq, i1, counter, counts);
    e2, rest, i2 := HeapPop(pq1);
    PopFacts(pq1, i2, counter, counts);
  }

  /** The entry pushed for a merged vertex: the two popped trees under a parent that weighs both. */
  function Merged(e1: QEntry, e2: QEntry, counter: nat): QEntry
  {
    QEntry(e1.weight + e2.weight, counter, TreeVertex(None, e1.weight + e2.weight, Some(e1.node), Some(e2.node)))
  }

  /** The merged entry carries both trees' leaves and weight, and is built from `counts`. */
  lemma MergedFacts(e1: QEntry, e2: QEntry, counter: nat, counts: map<char, nat>)
    requires EntryInv(e1, counter, counts) && EntryInv(e2, counter, counts)
    ensures var entry := Merged(e1, e2, counter);
            && EntryLeaves(entry) == EntryLeaves(e1) + EntryLeaves(e2)
            && entry.weight == entry.node.weight && WellBuilt(entry.node, counts)
  {
    var entry := Merged(e1, e2, counter);
    assert LeafChars(entry.node) == LeafChars(e1.node) + LeafChars(e2.node);
  }

  /** Pushing the merged entry keeps the queue invariant, the leaves and the total weight. */
  lemma PushMerged(rest: seq<QEntry>, e1: QEntry, e2: QEntry, counter: nat, counts: map<char, nat>)
    requires QueueInv(rest, counter, counts) && EntryInv(e1, counter, counts) && EntryInv(e2, counter, counts)
    ensures QueueInv(rest + [Merged(e1, e2, counter)], counter + 1, counts)
    ensures QueuedLeaves(rest + [Merged(e1, e2, counter)]) == QueuedLeaves(rest) + EntryLeaves(e1) + EntryLeaves(e2)
    ensures QueuedWeight(rest + [Merged(e1, e2, counter)]) == QueuedWeight(rest) + e1.weight + e2.weight
  {
    MergedFacts(e1, e2, counter, counts);
    PushFacts(rest, Merged(e1, e2, counter), e1, e2);
    QueueInvPush(rest, counter, counts, Merged(e1, e2, counter));
  }

  /** What pushing the merged vertex keeps. */
  lemma PushFacts(rest: seq<QEntry>, entry: QEntry, e1: QEntry, e2: QEntry)
    requires EntryLeaves(entry) == EntryLeaves(e1) + EntryLeaves(e2)
    requires entry.weight == e1.weight + e2.weight
    ensures QueuedLeaves(rest + [entry]) == QueuedLeaves(rest) + EntryLeaves(e1) + EntryLeaves(e2)
    ensures QueuedWeight(rest + [entry]) == QueuedWeight(rest) + e1.weight + e2.weight
  {
    QueuedSingle(entry);
    QueuedLeavesAppend(rest, [entry]);
    QueuedWeightAppend(rest, [entry]);
  }

  method MergeTwo(pq: seq<QEntry>, counter: nat, ghost counts: map<char, nat>)
    returns (pq': seq<QEntry>, e1: QEntry, e2: QEntry, ghost rest: seq<QEntry>)
    requires |pq| > 1 && QueueInv(pq, counter, counts)
    ensures |rest| == |pq| - 2
    ensures forall j :: 0 <= j < |pq| ==> Before(e1, pq[j])
    ensures forall j :: 0 <= j < |rest| ==> Before(e2, rest[j])
    ensures pq' == rest + [Merged(e1, e2, counter)]
    ensures QueueInv(pq', counter + 1, counts)
    ensures QueuedLeaves(pq') == QueuedLeaves(pq) && QueuedWeight(pq') == QueuedWeight(pq)
  {
    var rest';
    e1, e2, rest' := PopTwo(pq, counter, counts);
    rest := rest';
    var parent := TreeVertex(None, e1.weight + e2.weight, Some(e1.node), Some(e2.node));
    var entry := QEntry(parent.weight, counter, parent);
    assert entry == Merged(e1, e2, counter);
    pq' := rest' + [entry];
    PushMerged(rest', e1, e2, counter, counts);
  }

  /**
   * `buildTree(freqs)`: `None` without characters, the lone leaf for a
   * single character, and otherwise the tree left after merging until one
   * entry remains.  Its leaves are the keys, each once, and the root weighs
   * the total count.
   */
  method BuildTree(freqs: Freqs) returns (root: Option<TreeVertex>)
    requires Valid(freqs)
    ensures root.None? <==> freqs.order == []
    ensures |freqs.order| == 1 ==> root == Some(Leaf(freqs.order[0], freqs.counts[freqs.order[0]]))
    ensures root.Some? ==> && WellBuilt(root.value, freqs.counts)
                           && root.value.weight == TotalCount(freqs)
                           && multiset(LeafChars(root.value)) == multiset(freqs.order)
  {
    var pq := SeedQueue(freqs);
    SeedFacts(freqs);
    var counter: nat := |pq|;
    if |pq| == 0 {
      return None;
    }
    if |pq| == 1 {
      return Some(pq[0].node);
    }
    pq, counter := MergeAll(pq, counter, freqs.counts);
    var last, rest, i := HeapPop(pq);
    LastEntry(pq, counter, freqs.counts);
    root := Some(last.node);
  }

  /** What the seeded queue satisfies when the merging starts. */
  lemma SeedFacts(freqs: Freqs)
    requires Valid(freqs)
    ensures var pq := SeedEntries(freqs.order, freqs.counts);
            && |pq| == |freqs.order|
            && QueueInv(pq, |pq|, freqs.counts)
            && QueuedLeaves(pq) == multiset(freqs.order)
            && QueuedWeight(pq) == TotalCount(freqs)
            && (|pq| == 1 ==> pq[0].node == Leaf(freqs.order[0], freqs.counts[freqs.order[0]]))
  {
    SeedEntriesAt(freqs.order, freqs.counts);
    SeedQueueInv(freqs.order, freqs.counts);
    SeedEntriesLeaves(freqs.order, freqs.counts);
    SeedEntriesWeight(freqs.order, freqs.counts);
  }

  /** The seeded leaves are built from the counts and numbered apart. */
  lemma SeedQueueInv(order: seq<char>, counts: map<char, nat>)
    requires forall i :: 0 <= i < |order| ==> order[i] in counts
    ensures QueueInv(SeedEntries(order, counts), |order|, counts)
  {
    var pq := SeedEntries(order, counts);
    SeedEntriesAt(order, counts);
    forall j | 0 <= j < |pq|
      ensures EntryInv(pq[j], |order|, counts)
    {
    }
  }

  /** The `while len(pq) > 1` loop of `buildTree`: merge until one entry is left. */
  method MergeAll(pq: seq<QEntry>, counter: nat, ghost counts: map<char, nat>) returns (pq': seq<QEntry>, counter': nat)
    requires pq != [] && QueueInv(pq, counter, counts)
    ensures |pq'| == 1 && QueueInv(pq', counter', counts)
    ensures QueuedLeaves(pq') == QueuedLeaves(pq) && QueuedWeight(pq') == QueuedWeight(pq)
  {
    pq', counter' := pq, counter;
    while |pq'| > 1
      invariant pq' != [] && QueueInv(pq', counter', counts)
      invariant QueuedLeaves(pq') == QueuedLeaves(pq) && QueuedWeight(pq') == QueuedWeight(pq)
      decreases |pq'|
    {
      var left, right;
      ghost var rest;
      pq', left, right, rest := MergeTwo(pq', counter', counts);
      counter' := counter' + 1;
    }
  }

  /** The entry of a one-entry queue holds a built tree with all the leaves and all the weight. */
  lemma LastEntry(pq: seq<QEntry>, counter: nat, counts: map<char, nat>)
    requires |pq| == 1 && QueueInv(pq, counter, counts)
    ensures WellBuilt(pq[0].node, counts)
    ensures pq[0].node.weight == QueuedWeight(pq)
    ensures multiset(LeafChars(pq[0].node)) == QueuedLeaves(pq)
  {
    assert pq == [pq[0]];
    assert EntryInv(pq[0], counter, counts);
    QueuedSingle(pq[0]);
  }

  // ---------------------------------------------------------------------
  // The code map

  /** `code_map`: from a vertex's `c` to its bit string. */
  type CodeMap = map<Option<char>, string>

  /** A string of `'0'`s and `'1'`s. */
  predicate IsBits(s: string)
  {
    forall i :: 0 <= i < |s| ==> s[i] == '0' || s[i] == '1'
  }

  predicate IsPrefix(p: string, s: string)
  {
    |p| <= |s| && s[..|p|] == p
  }

  /** The `c` of every leaf. */
  function LeafKeys(t: TreeVertex): set<Option<char>>
    decreases t
  {
    if IsLeaf(t) then {t.c}
    else (if t.leftChild.Some? then LeafKeys(t.leftChild.value) else {})
         + (if t.rightChild.Some? then LeafKeys(t.rightChild.value) else {})
  }

  /**
   * What `walk(node, bits)` stores: each leaf's path from `node`, `"0"` for
   * a left and `"1"` for a right step, after `bits`; a leaf met later
   * overwrites an earlier one with the same `c`.
   */
  function Codes(t: TreeVertex, bits: string): CodeMap
    decreases t
  {
    if IsLeaf(t) then map[t.c := bits]
    else ChildCodes(t.leftChild, bits + "0") + ChildCodes(t.rightChild, bits + "1")
  }

  /** The codes below a child slot; an empty slot contributes none. */
  function ChildCodes(child: Option<TreeVertex>, bits: string): CodeMap
    decreases child
  {
    if child.Some? then Codes(child.value, bits) else map[]
  }

  /** `walk`: it adds `Codes(node, currentBits)` to the map it writes into. */
  method Walk(node: TreeVertex, currentBits: string, codeMap: CodeMap) returns (codeMap': CodeMap)
    ensures codeMap' == codeMap + Codes(node, currentBits)
    decreases node
  {
    if IsLeaf(node) {
      return codeMap[node.c := currentBits];
    }
    codeMap' := codeMap;
    if node.leftChild.Some? {
      codeMap' := Walk(node.leftChild.value, currentBits + "0", codeMap');
    }
    assert codeMap' == codeMap + ChildCodes(node.leftChild, currentBits + "0");
    ghost var mid := codeMap';
    if node.rightChild.Some? {
      codeMap' := Walk(node.rightChild.value, currentBits + "1", codeMap');
    }
    assert codeMap' == mid + ChildCodes(node.rightChild, currentBits + "1");
    UnionAssoc(codeMap, ChildCodes(node.leftChild, currentBits + "0"), ChildCodes(node.rightChild, currentBits + "1"));
  }

  lemma UnionAssoc(a: CodeMap, b: CodeMap, c: CodeMap)
    ensures (a + b) + c == a + (b + c)
  {
  }

  /** Every key of `Codes(t, bits)` is a leaf's `c`, and every leaf's `c` is a key. */
  lemma {:induction false} CodesKeys(t: TreeVertex, bits: string)
    ensures Codes(t, bits).Keys == LeafKeys(t)
    decreases t
  {
    if !IsLeaf(t) {
      if t.leftChild.Some? {
        CodesKeys(t.leftChild.value, bits + "0");
      }
      if t.rightChild.Some? {
        CodesKeys(t.rightChild.value, bits + "1");
      }
    }
  }

  /** The code of `k` extends `bits` by bits, by at least one unless `t` is a leaf. */
  lemma {:induction false} CodeExtends(t: TreeVertex, bits: string, k: Option<char>)
    requires k in Codes(t, bits)
    ensures IsPrefix(bits, Codes(t, bits)[k])
    ensures IsBits(Codes(t, bits)[k][|bits|..])
    ensures IsLeaf(t) || |Codes(t, bits)[k]| > |bits|
    decreases t
  {
    if !IsLeaf(t) {
      var child, step := ChildStep(t, k, bits);
      CodeExtends(child, bits + step, k);
      var c := Codes(t, bits)[k];
      var n := |bits|;
      assert c[..n + 1] == bits + step;
      assert c[..n] == c[..n + 1][..n];
      forall i | 0 <= i < |c| - n
        ensures c[n..][i] == '0' || c[n..][i] == '1'
      {
        if i == 0 {
          assert c[n] == c[..n + 1][n] == step[0];
        } else {
          assert c[n..][i] == c[n + 1..][i - 1];
        }
      }
    }
  }

  /** The child whose codes supply the code of `k` in a merged vertex, and the bit for that step. */
  lemma ChildStep(t: TreeVertex, k: Option<char>, bits: string) returns (child: TreeVertex, step: string)
    requires !IsLeaf(t) && k in Codes(t, bits)
    ensures child < t && (step == "0" || step == "1")
    ensures k in Codes(child, bits + step) && Codes(t, bits)[k] == Codes(child, bits + step)[k]
    ensures step == "0" ==> t.leftChild == Some(child) && (t.rightChild.None? || k !in Codes(t.rightChild.value, bits + "1"))
    ensures step == "1" ==> t.rightChild == Some(child)
  {
    if t.rightChild.Some? && k in Codes(t.rightChild.value, bits + "1") {
      child, step := t.rightChild.value, "1";
    } else {
      child, step := t.leftChild.value, "0";
    }
  }

  /** No code of `Codes(t, bits)` is a prefix of the code of another key. */
  lemma {:induction false} CodesPrefixFree(t: TreeVertex, bits: string)
    ensures forall a, b :: a in Codes(t, bits) && b in Codes(t, bits) && a != b ==>
              !IsPrefix(Codes(t, bits)[a], Codes(t, bits)[b])
    decreases t
  {
    if !IsLeaf(t) {
      var m := Codes(t, bits);
      forall a, b | a in m && b in m && a != b
        ensures !IsPrefix(m[a], m[b])
      {
        var ca, sa := ChildStep(t, a, bits);
        var cb, sb := ChildStep(t, b, bits);
        if sa == sb {
          assert ca == cb;
          CodesPrefixFree(ca, bits + sa);
        } else {
          CodeExtends(ca, bits + sa, a);
          CodeExtends(cb, bits + sb, b);
          assert m[a][|bits|] == sa[0] && m[b][|bits|] == sb[0];
        }
      }
    }
  }

  /** In a built tree the leaf keys are the leaf characters, each wrapped in `Some`. */
  lemma {:induction false} LeafKeysOfBuilt(t: TreeVertex, counts: map<char, nat>)
    requires WellBuilt(t, counts)
    ensures forall k :: k in LeafKeys(t) <==> k.Some? && k.value in LeafChars(t)
    decreases t
  {
    if !IsLeaf(t) {
      LeafKeysOfBuilt(t.leftChild.value, counts);
      LeafKeysOfBuilt(t.rightChild.value, counts);
    }
  }

  /** What `createCodeMap(root)` returns. */
  function CodeMapOf(root: Option<TreeVertex>): CodeMap
  {
    match root
    case None => map[]
    case Some(t) => if IsLeaf(t) then map[t.c := "0"] else Codes(t, "")
  }

  /** A prefix-free code: no code is a prefix of another key's code. */
  predicate PrefixFree(m: CodeMap)
  {
    forall a, b :: a in m && b in m && a != b ==> !IsPrefix(m[a], m[b])
  }

  /**
   * The code map of a tree: one key per leaf, every code a non-empty
   * string of bits, and no code the prefix of another.
   */
  lemma CodeMapFacts(root: Option<TreeVertex>)
    ensures root.None? ==> CodeMapOf(root) == map[]
    ensures root.Some? ==> CodeMapOf(root).Keys == LeafKeys(root.value)
    ensures forall k :: k in CodeMapOf(root) ==> IsBits(CodeMapOf(root)[k]) && |CodeMapOf(root)[k]| >= 1
    ensures PrefixFree(CodeMapOf(root))
  {
    if root.Some? && !IsLeaf(root.value) {
      var m := Codes(root.value, "");
      CodesKeys(root.value, "");
      CodesPrefixFree(root.value, "");
      forall k | k in m
        ensures IsBits(m[k]) && |m[k]| >= 1
      {
        CodeExtends(root.value, "", k);
        assert m[k][0..] == m[k];
      }
    }
  }

  /**
   * `createCodeMap(root)`: empty for no tree, `"0"` for a lone leaf, and
   * otherwise the paths `walk` records from the root.
   */
  method CreateCodeMap(root: Option<TreeVertex>) returns (codeMap: CodeMap)
    ensures codeMap == CodeMapOf(root)
    ensures root.Some? ==> codeMap.Keys == LeafKeys(root.value)
    ensures forall k :: k in codeMap ==> IsBits(codeMap[k]) && |codeMap[k]| >= 1
    ensures PrefixFree(codeMap)
  {
    CodeMapFacts(root);
    codeMap := map[];
    if root.None? {
      return;
    }
    if IsLeaf(root.value) {
      codeMap := codeMap[root.value.c := "0"];
      return;
    }
    codeMap := Walk(root.value, "", codeMap);
  }

  /** Every character of `order` has a code of at least one bit. */
  predicate CodesEvery(order: seq<char>, codeMap: CodeMap)
  {
    forall i :: 0 <= i < |order| ==> Some(order[i]) in codeMap && |codeMap[Some(order[i])]| >= 1
  }

  /** The code map of the tree built from `freqs` has a code for every counted character. */
  lemma BuiltCodeMapCovers(freqs: Freqs, root: TreeVertex)
    requires Valid(freqs) && WellBuilt(root, freqs.counts)
    requires multiset(LeafChars(root)) == multiset(freqs.order)
    ensures CodesEvery(freqs.order, CodeMapOf(Some(root)))
  {
    var codeMap := CodeMapOf(Some(root));
    CodeMapFacts(Some(root));
    LeafKeysOfBuilt(root, freqs.counts);
    forall i | 0 <= i < |freqs.order|
      ensures Some(freqs.order[i]) in codeMap && |codeMap[Some(freqs.order[i])]| >= 1
    {
      var ch := freqs.order[i];
      assert ch in multiset(freqs.order);
      assert ch in LeafChars(root);
    }
  }


  // ---------------------------------------------------------------------
  // Sizes of the encoded text

  /**
   * `huffman_total_bits` over the keys in `order`: each count times the
   * length of its code, added up; a key without a code is the `KeyError`
   * that `code_map[ch]` raises.
   */
  function TotalBits(order: seq<char>, counts: map<char, nat>, codeMap: CodeMap): Result<nat>
    requires forall i :: 0 <= i < |order| ==> order[i] in counts
  {
    if order == [] then Success(0)
    else
      match TotalBits(order[..|order| - 1], counts, codeMap)
      case Failure(e) => Failure(e)
      case Success(total) =>
        var ch := order[|order| - 1];
        if Some(ch) in codeMap then Success(total + counts[ch] * |codeMap[Some(ch)]|)
        else Failure(KeyError)
  }

  /** `huffman_total_bits(freqs, code_map)`. */
  method HuffmanTotalBits(freqs: Freqs, codeMap: CodeMap) returns (r: Result<nat>)
    requires Valid(freqs)
    ensures r == TotalBits(freqs.order, freqs.counts, codeMap)
  {
    var order := freqs.order;
    var total := 0;
    for i := 0 to |order|
      invariant TotalBits(order[..i], freqs.counts, codeMap) == Success(total)
    {
      assert order[..i + 1][..i] == order[..i];
      var ch := order[i];
      if Some(ch) !in codeMap {
        TotalBitsFailureSticks(order, freqs.counts, codeMap, i + 1);
        return Failure(KeyError);
      }
      total := total + freqs.counts[ch] * |codeMap[Some(ch)]|;
    }
    assert order[..|order|] == order;
    r := Success(total);
  }

  lemma {:induction false} TotalBitsFailureSticks(order: seq<char>, counts: map<char, nat>, codeMap: CodeMap, k: nat)
    requires forall i :: 0 <= i < |order| ==> order[i] in counts
    requires k <= |order| && TotalBits(order[..k], counts, codeMap).Failure?
    ensures TotalBits(order, counts, codeMap) == TotalBits(order[..k], counts, codeMap)
    decreases |order| - k
  {
    if k < |order| {
      assert order[..k + 1][..k] == order[..k];
      TotalBitsFailureSticks(order, counts, codeMap, k + 1);
    } else {
      assert order[..k] == order;
    }
  }

  /** The sum fails, with a `KeyError`, exactly when some key has no code. */
  lemma {:induction false} TotalBitsFails(order: seq<char>, counts: map<char, nat>, codeMap: CodeMap)
    requires forall i :: 0 <= i < |order| ==> order[i] in counts
    ensures TotalBits(order, counts, codeMap).Failure? <==>
              exists i :: 0 <= i < |order| && Some(order[i]) !in codeMap
    ensures TotalBits(order, counts, codeMap).Failure? ==> TotalBits(order, counts, codeMap).error == KeyError
  {
    if order != [] {
      var init := order[..|order| - 1];
      TotalBitsFails(init, counts, codeMap);
      if TotalBits(init, counts, codeMap).Failure? {
        var i :| 0 <= i < |init| && Some(init[i]) !in codeMap;
        assert order[i] == init[i];
      } else if Some(order[|order| - 1]) in codeMap {
        forall i | 0 <= i < |order|
          ensures Some(order[i]) in codeMap
        {
          if i < |init| {
            assert order[i] == init[i];
          }
        }
      }
    }
  }

  /** `fixed_length_total_bits`. */
  function FixedLengthTotalBits(totalChars: nat, bitsPerChar: nat): nat
  {
    totalChars * bitsPerChar
  }

  /** With every code `width` bits long the Huffman size is the fixed-length size. */
  lemma {:induction false} TotalBitsUniform(order: seq<char>, counts: map<char, nat>, codeMap: CodeMap, width: nat)
    requires forall i :: 0 <= i < |order| ==> order[i] in counts
    requires forall i :: 0 <= i < |order| ==> Some(order[i]) in codeMap && |codeMap[Some(order[i])]| == width
    ensures TotalBits(order, counts, codeMap) == Success(FixedLengthTotalBits(SumOver(order, counts), width))
  {
    if order != [] {
      var init := order[..|order| - 1];
      assert forall i :: 0 <= i < |init| ==> init[i] == order[i];
      TotalBitsUniform(init, counts, codeMap, width);
      var c := counts[order[|order| - 1]];
      assert (SumOver(init, counts) + c) * width == SumOver(init, counts) * width + c * width;
    }
  }

  /** With every code at least one bit long the Huffman size is at least the number of characters. */
  lemma {:induction false} TotalBitsAtLeastCount(order: seq<char>, counts: map<char, nat>, codeMap: CodeMap)
    requires forall i :: 0 <= i < |order| ==> order[i] in counts
    requires CodesEvery(order, codeMap)
    ensures TotalBits(order, counts, codeMap).Success?
    ensures TotalBits(order, counts, codeMap).value >= SumOver(order, counts)
  {
    if order != [] {
      var init := order[..|order| - 1];
      assert forall i :: 0 <= i < |init| ==> init[i] == order[i];
      TotalBitsAtLeastCount(init, counts, codeMap);
      var ch := order[|order| - 1];
      assert counts[ch] * |codeMap[Some(ch)]| >= counts[ch];
    }
  }

  /**
   * The pipeline of `main`: for the tree built from `freqs`, the Huffman
   * size raises no `KeyError` and is at least one bit per character.
   */
  lemma BuiltTotalBits(freqs: Freqs, root: TreeVertex)
    requires Valid(freqs) && WellBuilt(root, freqs.counts)
    requires multiset(LeafChars(root)) == multiset(freqs.order)
    ensures var r := TotalBits(freqs.order, freqs.counts, CodeMapOf(Some(root)));
            r.Success? && r.value >= TotalCount(freqs)
  {
    BuiltCodeMapCovers(freqs, root);
    CoveredTotalBits(freqs, CodeMapOf(Some(root)));
  }

  /** With a code for every key `huffman_total_bits` raises nothing and gives at least a bit per character. */
  lemma CoveredTotalBits(freqs: Freqs, codeMap: CodeMap)
    requires Valid(freqs) && CodesEvery(freqs.order, codeMap)
    ensures var r := TotalBits(freqs.order, freqs.counts, codeMap);
            r.Success? && r.value >= TotalCount(freqs)
  {
    TotalBitsAtLeastCount(freqs.order, freqs.counts, codeMap);
  }

  /** The least `b` with `k <= 2^b`: `ceil(log2(k))` computed on integers. */
  function CeilLog2(k: nat): (b: nat)
    requires k >= 1
    ensures k <= Pow2(b)
    ensures b == 0 || Pow2(b - 1) < k
    decreases k
  {
    if k == 1 then 0 else 1 + CeilLog2((k + 1) / 2)
  }

  /**
   * `fixed_length_bits_per_char(k)`: one bit for at most one character,
   * otherwise the fewest bits that give `k` characters distinct codes.
   */
  function BitsPerChar(k: nat): (b: nat)
    ensures b >= 1
    ensures k <= Pow2(b)
    ensures k >= 2 ==> Pow2(b - 1) < k
  {
    if k <= 1 then 1 else CeilLog2(k)
  }
}
