/** The file allocation table as a sequence of 28-bit entries, and the cluster
    chains stored in it. */
module FatChains {
  import opened Bytes

  /** Entries from here on end a chain (and are what `AllocateCluster` stores). */
  const END_OF_CHAIN := 0x0FFF_FFF8
  /** The loader already stops here; no cluster of a usable volume is that large. */
  const LOADER_STOP := 0x0FFF_FFF0

  type Chain = seq<nat>

  function Last(ch: Chain): nat
    requires ch != []
  {
    ch[|ch| - 1]
  }

  predicate IsEnd(e: int) { e >= END_OF_CHAIN }

  predicate IsLink(e: int) { 2 <= e < END_OF_CHAIN }

  /** ch follows the links of table t from its first cluster to an end mark. */
  ghost predicate IsChain(t: seq<int>, ch: Chain) {
    && 0 < |ch|
    && (forall i :: 0 <= i < |ch| ==> 2 <= ch[i] < |t| && ch[i] < LOADER_STOP)
    && (forall i :: 0 <= i < |ch| - 1 ==> t[ch[i]] == ch[i + 1])
    && IsEnd(t[ch[|ch| - 1]])
  }

  /** A chain that reaches an end mark visits no cluster twice. */
  lemma {:induction false} ChainAcyclic(t: seq<int>, ch: Chain, i: nat, j: nat)
    requires IsChain(t, ch) && i < j < |ch|
    ensures ch[i] != ch[j]
    decreases |ch| - j
  {
    assert t[ch[i]] == ch[i + 1];
    if j + 1 < |ch| {
      assert t[ch[j]] == ch[j + 1];
      ChainAcyclic(t, ch, i + 1, j + 1);
    }
  }

  /** The chain of a first cluster is determined by the table. */
  lemma {:induction false} ChainUnique(t: seq<int>, a: Chain, b: Chain)
    requires IsChain(t, a) && IsChain(t, b) && a[0] == b[0]
    ensures a == b
    decreases |a|
  {
    assert |b| > 1 ==> t[b[0]] == b[0 + 1];
    if |a| > 1 {
      assert t[a[0]] == a[0 + 1];
      TailIsChain(t, a);
      TailIsChain(t, b);
      ChainUnique(t, a[1..], b[1..]);
      assert a == [a[0]] + a[1..] && b == [b[0]] + b[1..];
    }
  }

  lemma TailIsChain(t: seq<int>, ch: Chain)
    requires IsChain(t, ch) && |ch| > 1
    ensures IsChain(t, ch[1..])
  {
    var r := ch[1..];
    assert forall i :: 0 <= i < |r| ==> r[i] == ch[i + 1];
  }

  ghost predicate Disjoint(a: Chain, b: Chain) {
    forall i, j :: 0 <= i < |a| && 0 <= j < |b| ==> a[i] != b[j]
  }

  /** Pairwise disjoint, acyclic, end-marked chains. */
  ghost predicate Forest(t: seq<int>, chains: seq<Chain>) {
    && (forall k :: 0 <= k < |chains| ==> IsChain(t, chains[k]))
    && (forall a, b :: 0 <= a < b < |chains| ==> Disjoint(chains[a], chains[b]))
  }

  /** A free entry belongs to no chain. */
  lemma FreeOutside(t: seq<int>, ch: Chain, c: nat)
    requires IsChain(t, ch) && c < |t| && t[c] == 0
    ensures c !in ch
  {
    forall i | 0 <= i < |ch| ensures ch[i] != c {
      if i < |ch| - 1 { assert t[ch[i]] == ch[i + 1]; }
    }
  }

  /** Changing an entry outside a chain leaves the chain. */
  lemma OutsideKept(t: seq<int>, ch: Chain, c: nat, v: int)
    requires IsChain(t, ch) && c < |t| && c !in ch
    ensures IsChain(t[c := v], ch)
  {
    forall i | 0 <= i < |ch| ensures t[c := v][ch[i]] == t[ch[i]] {
      assert ch[i] in ch;
    }
  }

  /** Marking a free entry as an end starts one new chain and leaves all others. */
  lemma StartChain(t: seq<int>, chains: seq<Chain>, c: nat)
    requires Forest(t, chains) && 2 <= c < |t| && c < LOADER_STOP && t[c] == 0
    ensures Forest(t[c := END_OF_CHAIN], chains + [[c]])
  {
    var t', cs := t[c := END_OF_CHAIN], chains + [[c]];
    forall k | 0 <= k < |cs| ensures IsChain(t', cs[k]) {
      if k < |chains| {
        FreeOutside(t, chains[k], c);
        OutsideKept(t, chains[k], c, END_OF_CHAIN);
      }
    }
    forall a, b | 0 <= a < b < |cs| ensures Disjoint(cs[a], cs[b]) {
      if b == |chains| { FreeOutside(t, chains[a], c); }
    }
  }

  /** Marking a free entry and linking the last cluster of chain k to it grows exactly that chain. */
  lemma GrowChain(t: seq<int>, chains: seq<Chain>, k: nat, c: nat)
    requires Forest(t, chains) && k < |chains| && 2 <= c < |t| && c < LOADER_STOP && t[c] == 0
    ensures
      var ch := chains[k];
      Forest(t[c := END_OF_CHAIN][ch[|ch| - 1] := c], chains[k := ch + [c]])
  {
    var ch := chains[k];
    var last := ch[|ch| - 1];
    var t1 := t[c := END_OF_CHAIN];
    var t2, cs := t1[last := c], chains[k := ch + [c]];
    forall j | 0 <= j < |cs| ensures IsChain(t2, cs[j]) {
      FreeOutside(t, chains[j], c);
      OutsideKept(t, chains[j], c, END_OF_CHAIN);
      if j != k {
        assert Disjoint(chains[Min(j, k)], chains[if j < k then k else j]);
        OutsideKept(t1, chains[j], last, c);
      } else {
        ExtendedIsChain(t1, ch, c);
      }
    }
    forall a, b | 0 <= a < b < |cs| ensures Disjoint(cs[a], cs[b]) {
      FreeOutside(t, chains[a], c);
      FreeOutside(t, chains[b], c);
      assert Disjoint(chains[a], chains[b]);
    }
  }

  lemma ExtendedIsChain(t: seq<int>, ch: Chain, c: nat)
    requires IsChain(t, ch) && 2 <= c < |t| && c < LOADER_STOP && c !in ch && IsEnd(t[c])
    ensures IsChain(t[ch[|ch| - 1] := c], ch + [c])
  {
    var last := ch[|ch| - 1];
    var t', r := t[last := c], ch + [c];
    forall i | 0 <= i < |r| - 1 ensures t'[r[i]] == r[i + 1] {
      if i < |ch| - 1 {
        ChainAcyclic(t, ch, i, |ch| - 1);
        assert t[ch[i]] == ch[i + 1];
      }
    }
    assert r[|r| - 1] == c && c != last;
  }

  // ------------------------------------------------------------ looking for a free entry

  /** The smallest free entry below `limit`; Throws when the scan leaves the table first. */
  function FirstFree(t: seq<int>, limit: nat, i: nat := 0): (r: Result<Option<nat>>)
    decreases limit - i
    ensures r.Ok? && r.value.Some? ==>
      && i <= r.value.value < limit && r.value.value < |t| && t[r.value.value] == 0
      && forall j :: i <= j < r.value.value ==> t[j] != 0
    ensures r == Ok(None) ==> (limit <= i || limit <= |t|) && forall j :: i <= j < limit && j < |t| ==> t[j] != 0
    ensures r == Throws ==> i <= |t| < limit || |t| < i < limit
    ensures r == Throws ==> forall j :: i <= j < |t| ==> t[j] != 0
  {
    if i >= limit then Ok(None)
    else if i >= |t| then Throws
    else if t[i] == 0 then Ok(Some(i))
    else FirstFree(t, limit, i + 1)
  }

  /** The scan starts at entry 0, so it returns a real cluster exactly when the two
      reserved entries are in use. */
  lemma FirstFreeIsCluster(t: seq<int>, limit: nat)
    requires FirstFree(t, limit).Ok? && FirstFree(t, limit).value.Some?
    ensures FirstFree(t, limit).value.value >= 2 <==> |t| >= 2 && t[0] != 0 && t[1] != 0
  {
    var c := FirstFree(t, limit).value.value;
    assert c > 0 ==> t[0] != 0;
    assert c > 1 ==> t[1] != 0;
  }

  // ------------------------------------------------------------ counting

  /** How many entries are free. */
  function FreeEntries(t: seq<int>): (n: nat)
    ensures n <= |t|
  {
    if t == [] then 0 else FreeEntries(t[..|t| - 1]) + (if t[|t| - 1] == 0 then 1 else 0)
  }

  /** The free entries of a table. */
  function FreeSet(t: seq<int>): set<int> { set e | 0 <= e < |t| && t[e] == 0 }

  lemma {:induction false} FreeEntriesAre(t: seq<int>)
    ensures FreeEntries(t) == |FreeSet(t)|
  {
    if t != [] {
      var n := |t| - 1;
      FreeEntriesAre(t[..n]);
      assert FreeSet(t) == FreeSet(t[..n]) + if t[n] == 0 then {n} else {};
    }
  }

  lemma FreeEntriesStep(t: seq<int>, i: nat)
    requires i < |t|
    ensures FreeEntries(t[..i + 1]) == FreeEntries(t[..i]) + (if t[i] == 0 then 1 else 0)
  {
    assert t[..i + 1][..i] == t[..i];
  }

  /** A chain is no longer than the number of clusters it can use. */
  lemma ChainFits(t: seq<int>, ch: Chain, count: nat)
    requires IsChain(t, ch) && forall i :: 0 <= i < |ch| ==> 2 <= ch[i] < count + 2
    ensures |ch| <= count
  {
    var s := seq(|ch|, i requires 0 <= i < |ch| => ch[i] - 2);
    forall i, j | 0 <= i < j < |ch| ensures s[i] != s[j] { ChainAcyclic(t, ch, i, j); }
    Pigeonhole(s, count);
  }

  lemma {:induction false} Pigeonhole(s: seq<nat>, bound: nat)
    requires forall i, j :: 0 <= i < j < |s| ==> s[i] != s[j]
    requires forall i :: 0 <= i < |s| ==> s[i] < bound
    ensures |s| <= bound
    decreases bound
  {
    if s == [] {
    } else if p :| 0 <= p < |s| && s[p] == bound - 1 {
      var r := s[..p] + s[p + 1..];
      assert forall i :: 0 <= i < |r| ==> r[i] == s[if i < p then i else i + 1];
      Pigeonhole(r, bound - 1);
    } else {
      assert s[0] < bound;
      Pigeonhole(s, bound - 1);
    }
  }
}
