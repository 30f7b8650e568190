/**
 * The store that packs compiled kernels into one buffer and reads them back
 * (ge/common/kernel_store.h, ge/common/kernel_store.cc).
 */
module KernelStore {
  import opened Blocks

  type byte = x: int | 0 <= x < 256

  datatype Kernel = Kernel(name: seq<byte>, bin: seq<byte>)

  const MAGIC: nat := 0x5D77_6EFD
  const WORD: nat := 0x1_0000_0000
  const HEAD: nat := 12

  // ----- the layout of one item

  /** A 32-bit word, least significant byte first. */
  function Word(x: nat): (r: seq<byte>)
    requires x < WORD
    ensures |r| == 4
  {
    [x % 256, x / 256 % 256, x / 256 / 256 % 256, x / 256 / 256 / 256]
  }

  function ReadWord(s: seq<byte>, at: nat): (r: nat)
    requires at + 4 <= |s|
    ensures r < WORD
  {
    s[at] as int + 256 * (s[at + 1] as int + 256 * (s[at + 2] as int + 256 * (s[at + 3] as int)))
  }

  lemma ReadWordOf(s: seq<byte>, at: nat, x: nat)
    requires at + 4 <= |s| && x < WORD && s[at..at + 4] == Word(x)
    ensures ReadWord(s, at) == x
  {
    var w := s[at..at + 4];
    assert w[0] == s[at] && w[1] == s[at + 1] && w[2] == s[at + 2] && w[3] == s[at + 3];
  }

  function Head(nameLen: nat, binLen: nat): (r: seq<byte>)
    requires nameLen < WORD && binLen < WORD
    ensures |r| == HEAD
  {
    Word(MAGIC) + Word(nameLen) + Word(binLen)
  }

  function Size(k: Kernel): nat {
    HEAD + |k.name| + |k.bin|
  }

  /** The sum of the two lengths is computed in 32 bits on loading. */
  predicate Sized(items: seq<Kernel>) {
    forall i :: 0 <= i < |items| ==> |items[i].name| + |items[i].bin| < WORD
  }

  function EncodeItem(k: Kernel): (r: seq<byte>)
    requires |k.name| + |k.bin| < WORD
    ensures |r| == Size(k)
  {
    Head(|k.name|, |k.bin|) + k.name + k.bin
  }

  /**
   * The layout of an item: twelve bytes of head, which are the magic number, the length of the name and the
   * length of the content, each with its least significant byte first; then the name, then the content.
   */
  lemma ItemBytes(k: Kernel)
    requires |k.name| + |k.bin| < WORD
    ensures var s := EncodeItem(k);
            && |s| == 12 + |k.name| + |k.bin|
            && s[0..4] == [0xFD, 0x6E, 0x77, 0x5D]
            && s[4] as int + 256 * (s[5] as int) + 65536 * (s[6] as int) + 16777216 * (s[7] as int) == |k.name|
            && s[8] as int + 256 * (s[9] as int) + 65536 * (s[10] as int) + 16777216 * (s[11] as int) == |k.bin|
            && s[12..12 + |k.name|] == k.name && s[12 + |k.name|..] == k.bin
  {
    var s := EncodeItem(k);
    assert s[0..4] == Word(MAGIC);
    assert s[4..8] == Word(|k.name|);
    assert s[8..12] == Word(|k.bin|);
    hide EncodeItem, Word;
    ReadWordOf(s, 4, |k.name|);
    ReadWordOf(s, 8, |k.bin|);
    assert Word(MAGIC) == [0xFD, 0x6E, 0x77, 0x5D];
  }

  function Total(items: seq<Kernel>): nat {
    if items == [] then 0 else Size(items[0]) + Total(items[1..])
  }

  function EncodeAll(items: seq<Kernel>): (r: seq<byte>)
    requires Sized(items)
    ensures |r| == Total(items)
  {
    if items == [] then [] else EncodeItem(items[0]) + EncodeAll(items[1..])
  }

  lemma {:induction false} EncodeAppend(items: seq<Kernel>, k: Kernel)
    requires Sized(items) && |k.name| + |k.bin| < WORD
    ensures Sized(items + [k]) && EncodeAll(items + [k]) == EncodeAll(items) + EncodeItem(k)
  {
    hide EncodeItem;
    if items == [] {
      assert items + [k] == [k] && [k][1..] == [];
    } else {
      assert (items + [k])[1..] == items[1..] + [k];
      EncodeAppend(items[1..], k);
    }
  }

  // ----- reading a buffer

  function NameLen(s: seq<byte>): (r: nat)
    requires |s| > HEAD
    ensures r < WORD
  {
    ReadWord(s, 4)
  }

  function BinLen(s: seq<byte>): (r: nat)
    requires |s| > HEAD
    ensures r < WORD
  {
    ReadWord(s, 8)
  }

  /**
   * Loading compares the rest of the buffer with the sum of both lengths in 32 bits, but reads by the
   * lengths themselves. Some head it reaches has a sum that fits only because it wraps around.
   */
  predicate Overruns(s: seq<byte>)
    decreases |s|
  {
    && |s| > HEAD
    && var len := NameLen(s) + BinLen(s);
       if |s| < HEAD + len then HEAD + len % WORD <= |s| else Overruns(s[HEAD + len..])
  }

  /** The items a buffer holds, up to the first one that is cut off. */
  function Items(s: seq<byte>): seq<Kernel>
    decreases |s|
  {
    if |s| <= HEAD || |s| < HEAD + NameLen(s) + BinLen(s) then []
    else
      var n, b := NameLen(s), BinLen(s);
      [Kernel(s[HEAD..HEAD + n], s[HEAD + n..HEAD + n + b])] + Items(s[HEAD + n + b..])
  }

  /** What is read from a buffer, in terms of its bytes; magic numbers are skipped. */
  lemma ItemsBytes(s: seq<byte>, n: nat, b: nat)
    requires |s| > 12
    requires n == s[4] as int + 256 * (s[5] as int) + 65536 * (s[6] as int) + 16777216 * (s[7] as int)
    requires b == s[8] as int + 256 * (s[9] as int) + 65536 * (s[10] as int) + 16777216 * (s[11] as int)
    ensures |s| < 12 + n + b ==> Items(s) == [] && (Overruns(s) <==> 12 + (n + b) % 0x1_0000_0000 <= |s|)
    ensures |s| >= 12 + n + b ==> Items(s) == [Kernel(s[12..12 + n], s[12 + n..12 + n + b])] + Items(s[12 + n + b..])
    ensures |s| >= 12 + n + b ==> (Overruns(s) <==> Overruns(s[12 + n + b..]))
  {
    hide Items, Overruns, NameLen, BinLen;
    LengthBytes(s);
    ItemsByLengths(s, n, b);
    OverrunsByLengths(s, n, b);
  }

  lemma LengthBytes(s: seq<byte>)
    requires |s| > 12
    ensures NameLen(s) == s[4] as int + 256 * (s[5] as int) + 65536 * (s[6] as int) + 16777216 * (s[7] as int)
    ensures BinLen(s) == s[8] as int + 256 * (s[9] as int) + 65536 * (s[10] as int) + 16777216 * (s[11] as int)
  {}

  lemma ItemsByLengths(s: seq<byte>, n: nat, b: nat)
    requires |s| > HEAD && NameLen(s) == n && BinLen(s) == b
    ensures |s| < HEAD + n + b ==> Items(s) == []
    ensures |s| >= HEAD + n + b ==>
              Items(s) == [Kernel(s[HEAD..HEAD + n], s[HEAD + n..HEAD + n + b])] + Items(s[HEAD + n + b..])
  {
    hide NameLen, BinLen, Overruns;
  }

  lemma OverrunsByLengths(s: seq<byte>, n: nat, b: nat)
    requires |s| > HEAD && NameLen(s) == n && BinLen(s) == b
    ensures |s| < HEAD + n + b ==> (Overruns(s) <==> HEAD + (n + b) % WORD <= |s|)
    ensures |s| >= HEAD + n + b ==> (Overruns(s) <==> Overruns(s[HEAD + n + b..]))
  {
    hide NameLen, BinLen, Items;
  }

  /** Twelve bytes or fewer hold nothing. */
  lemma ShortBuffer(s: seq<byte>)
    requires |s| <= 12
    ensures Items(s) == [] && !Overruns(s)
  {}

  /** How many of the items are read back from the first `n` bytes of their encoding. */
  function Contained(items: seq<Kernel>, n: nat): (c: nat)
    ensures c <= |items|
  {
    if items == [] || n <= HEAD || n < Size(items[0]) then 0 else 1 + Contained(items[1..], n - Size(items[0]))
  }

  /**
   * These are the items wholly inside the first `n` bytes. The one exception is an item without name
   * and content that ends exactly there: a bare head is not read.
   */
  lemma {:induction false} ContainedExact(items: seq<Kernel>, n: nat)
    ensures var c := Contained(items, n);
            && Total(items[..c]) <= n
            && (c < |items| ==> n < Total(items[..c + 1])
                                || (n == Total(items[..c + 1]) && Size(items[c]) == HEAD))
  {
    if items != [] {
      var c := Contained(items, n);
      if c == 0 {
        assert items[..1] == [items[0]] && items[..1][1..] == [];
      } else {
        ContainedExact(items[1..], n - Size(items[0]));
        assert items[..c][1..] == items[1..][..c - 1];
        if c < |items| {
          assert items[..c + 1][1..] == items[1..][..c];
        }
      }
    }
  }

  /** Every prefix of an encoding reads back as the items wholly inside it. */
  lemma {:induction false} PrefixLoads(items: seq<Kernel>, n: nat)
    requires Sized(items) && n <= Total(items)
    ensures !Overruns(EncodeAll(items)[..n])
    ensures Items(EncodeAll(items)[..n]) == items[..Contained(items, n)]
  {
    hide EncodeItem, NameLen, BinLen, Items, Overruns;
    var s := EncodeAll(items)[..n];
    if items != [] && n > HEAD {
      var k, rest := items[0], items[1..];
      HeadReads(k, EncodeAll(rest), n);
      if n >= Size(k) {
        PrefixLoads(rest, n - Size(k));
        BodyReads(k, EncodeAll(rest), n);
        ItemsStep(s, k, EncodeAll(rest)[..n - Size(k)]);
        assert items[..Contained(items, n)] == [k] + rest[..Contained(rest, n - Size(k))];
      } else {
        ItemsEnd(s);
      }
    } else {
      ItemsEnd(s);
    }
  }

  lemma ItemsStep(s: seq<byte>, k: Kernel, rest: seq<byte>)
    requires |s| > HEAD && NameLen(s) == |k.name| && BinLen(s) == |k.bin| && Size(k) <= |s|
    requires s[HEAD..HEAD + |k.name|] == k.name && s[HEAD + |k.name|..Size(k)] == k.bin && s[Size(k)..] == rest
    ensures Items(s) == [k] + Items(rest)
    ensures Overruns(s) <==> Overruns(rest)
  {
    hide NameLen, BinLen;
  }

  lemma ItemsEnd(s: seq<byte>)
    requires |s| > HEAD ==> |s| < HEAD + NameLen(s) + BinLen(s) && NameLen(s) + BinLen(s) < WORD
    ensures Items(s) == [] && !Overruns(s)
  {
    hide NameLen, BinLen;
  }

  lemma HeadReads(k: Kernel, rest: seq<byte>, n: nat)
    requires |k.name| + |k.bin| < WORD && HEAD < n <= Size(k) + |rest|
    ensures var s := (EncodeItem(k) + rest)[..n];
            NameLen(s) == |k.name| && BinLen(s) == |k.bin|
  {
    hide Word, ReadWord;
    var s := (EncodeItem(k) + rest)[..n];
    var head := Head(|k.name|, |k.bin|);
    assert s[..HEAD] == head;
    assert s[4..8] == head[4..8] == Word(|k.name|);
    assert s[8..12] == head[8..12] == Word(|k.bin|);
    ReadWordOf(s, 4, |k.name|);
    ReadWordOf(s, 8, |k.bin|);
  }

  lemma BodyReads(k: Kernel, rest: seq<byte>, n: nat)
    requires |k.name| + |k.bin| < WORD && Size(k) <= n <= Size(k) + |rest|
    ensures var s, a := (EncodeItem(k) + rest)[..n], |k.name|;
            && s[HEAD..HEAD + a] == k.name && s[HEAD + a..Size(k)] == k.bin
            && s[Size(k)..] == rest[..n - Size(k)]
  {
    hide Word;
    var head := Head(|k.name|, |k.bin|);
    var s := (head + k.name + k.bin + rest)[..n];
    assert s[HEAD..HEAD + |k.name|] == k.name;
    assert s[HEAD + |k.name|..Size(k)] == k.bin;
    assert s[Size(k)..] == rest[..n - Size(k)];
  }

  // ----- the map of kernels

  type Kernels = map<seq<byte>, Kernel>

  /** Kernels are filed under their own names. */
  predicate Filed(m: Kernels) {
    forall name :: name in m ==> m[name].name == name
  }

  /** Insertion that keeps an entry already there. */
  function Emplace(m: Kernels, k: Kernel): Kernels {
    if k.name in m then m else m[k.name := k]
  }

  function Merge(m: Kernels, items: seq<Kernel>): Kernels
    decreases |items|
  {
    if items == [] then m else Merge(Emplace(m, items[0]), items[1..])
  }

  lemma MergeNothing(m: Kernels)
    ensures Merge(m, []) == m
  {}

  lemma MergeNext(m: Kernels, k: Kernel, rest: seq<Kernel>)
    ensures Merge(m, [k] + rest) == Merge(Emplace(m, k), rest)
  {
    assert ([k] + rest)[1..] == rest;
  }

  lemma NothingLeft(m: Kernels, s: seq<byte>)
    requires |s| <= HEAD
    ensures Merge(m, Items(s)) == m && !Overruns(s)
  {}

  lemma SumAtLeast(n: nat)
    ensures n % WORD <= n
  {}

  predicate First(items: seq<Kernel>, i: int) {
    0 <= i < |items| && forall j :: 0 <= j < i ==> items[j].name != items[i].name
  }

  /** After loading, a name keeps its old kernel, or has the first item of that name, or is absent. */
  lemma {:induction false} MergeLookup(m: Kernels, items: seq<Kernel>, name: seq<byte>)
    ensures name in m ==> name in Merge(m, items) && Merge(m, items)[name] == m[name]
    ensures name !in m ==> forall i :: First(items, i) && items[i].name == name ==>
                                         name in Merge(m, items) && Merge(m, items)[name] == items[i]
    ensures name !in m && (forall i :: 0 <= i < |items| ==> items[i].name != name) ==> name !in Merge(m, items)
    decreases |items|
  {
    if items != [] {
      var rest := items[1..];
      MergeLookup(Emplace(m, items[0]), rest, name);
      if name !in m {
        forall i | First(items, i) && items[i].name == name
          ensures name in Merge(m, items) && Merge(m, items)[name] == items[i]
        {
          if i > 0 {
            assert rest[i - 1] == items[i];
            assert First(rest, i - 1) by {
              forall j | 0 <= j < i - 1 ensures rest[j].name != rest[i - 1].name {
                assert rest[j] == items[j + 1];
              }
            }
          }
        }
      }
    }
  }

  /** `order` is one way to go through the map. */
  predicate Enumerates(order: seq<seq<byte>>, m: Kernels) {
    && (forall i :: 0 <= i < |order| ==> order[i] in m)
    && (forall name :: name in m ==> name in order)
    && (forall i, j :: 0 <= i < j < |order| ==> order[i] != order[j])
  }

  function InOrder(order: seq<seq<byte>>, m: Kernels): (r: seq<Kernel>)
    requires forall i :: 0 <= i < |order| ==> order[i] in m
    ensures |r| == |order| && forall i :: 0 <= i < |r| ==> r[i] == m[order[i]]
  {
    seq(|order|, i requires 0 <= i < |order| => m[order[i]])
  }

  /** Filing the items of a map again gives the map back, whatever the order. */
  lemma Refiled(order: seq<seq<byte>>, m: Kernels)
    requires Filed(m) && Enumerates(order, m)
    ensures Merge(map[], InOrder(order, m)) == m
  {
    var items := InOrder(order, m);
    var merged := Merge(map[], items);
    forall name | name in m ensures name in merged && merged[name] == m[name] {
      var i :| 0 <= i < |order| && order[i] == name;
      assert First(items, i) && items[i].name == name;
      MergeLookup(map[], items, name);
    }
    forall name | name !in m ensures name !in merged {
      MergeLookup(map[], items, name);
    }
  }

  /** What `Build` needs: room below the copy limit, and content in the item that comes last. */
  predicate Buildable(items: seq<Kernel>) {
    items == [] || (Total(items) <= SECUREC_MEM_MAX_LEN && |items[|items| - 1].bin| > 0)
  }

  lemma BuildableSized(items: seq<Kernel>)
    requires Buildable(items)
    ensures Sized(items)
  {
    TotalBounds(items);
  }

  lemma {:induction false} TotalBounds(items: seq<Kernel>)
    ensures forall i :: 0 <= i < |items| ==> Size(items[i]) <= Total(items)
  {
    if items != [] {
      TotalBounds(items[1..]);
      forall i | 0 < i < |items| ensures Size(items[i]) <= Total(items) {
        assert items[i] == items[1..][i - 1];
      }
    }
  }

  /** Building, then loading the buffer into an empty store, restores the map for every order. */
  lemma RoundTrip(order: seq<seq<byte>>, m: Kernels)
    requires Filed(m) && Enumerates(order, m) && Buildable(InOrder(order, m))
    ensures Sized(InOrder(order, m))
    ensures !Overruns(EncodeAll(InOrder(order, m)))
    ensures Merge(map[], Items(EncodeAll(InOrder(order, m)))) == m
  {
    hide EncodeAll, Items, Overruns, Merge;
    var items := InOrder(order, m);
    BuildableSized(items);
    var s := EncodeAll(items);
    PrefixLoads(items, |s|);
    assert s[..|s|] == s;
    AllContained(items);
    assert items[..|items|] == items;
    Refiled(order, m);
  }

  /** Loading only the first `n` bytes restores exactly the kernels of the items contained in them. */
  lemma PrefixRestores(order: seq<seq<byte>>, m: Kernels, n: nat)
    requires Filed(m) && Enumerates(order, m) && Sized(InOrder(order, m)) && n <= Total(InOrder(order, m))
    ensures var c := Contained(InOrder(order, m), n);
            Merge(map[], Items(EncodeAll(InOrder(order, m))[..n])) == map name | name in m && name in order[..c] :: m[name]
  {
    hide EncodeAll, Items, Merge, Contained;
    var items := InOrder(order, m);
    var c := Contained(items, n);
    var part := map name | name in m && name in order[..c] :: m[name];
    PrefixLoads(items, n);
    assert Enumerates(order[..c], part);
    assert InOrder(order[..c], part) == items[..c];
    Refiled(order[..c], part);
  }

  lemma {:induction false} AllContained(items: seq<Kernel>)
    requires Buildable(items)
    ensures Contained(items, Total(items)) == |items|
  {
    if items != [] {
      var rest := items[1..];
      if rest != [] {
        assert rest[|rest| - 1] == items[|items| - 1];
        assert Total(rest) >= HEAD;
      }
      AllContained(rest);
    }
  }

  // ----- building without knowing the order

  lemma {:induction false} TotalConcat(a: seq<Kernel>, b: seq<Kernel>)
    ensures Total(a + b) == Total(a) + Total(b)
  {
    if a == [] {
      assert a + b == b;
    } else {
      assert (a + b)[1..] == a[1..] + b;
      TotalConcat(a[1..], b);
    }
  }

  /** The same names without repetition, perhaps in another order. */
  ghost predicate SameNames(o: seq<seq<byte>>, p: seq<seq<byte>>) {
    && (forall i, j :: 0 <= i < j < |o| ==> o[i] != o[j])
    && (forall i, j :: 0 <= i < j < |p| ==> p[i] != p[j])
    && (forall name :: name in o <==> name in p)
  }

  function Without<T>(s: seq<T>, i: nat): seq<T>
    requires i < |s|
  {
    s[..i] + s[i + 1..]
  }

  /** The length of the buffer does not depend on the order. */
  lemma {:induction false} TotalOfOrders(o: seq<seq<byte>>, p: seq<seq<byte>>, m: Kernels)
    requires SameNames(o, p) && (forall i :: 0 <= i < |o| ==> o[i] in m) && (forall i :: 0 <= i < |p| ==> p[i] in m)
    ensures Total(InOrder(o, m)) == Total(InOrder(p, m))
    decreases |o|
  {
    hide Total;
    assert |p| > 0 ==> p[0] in o;
    if o != [] {
      var n := |o| - 1;
      assert o[n] in p;
      var i :| 0 <= i < |p| && p[i] == o[n];
      RestSameNames(o, p, i);
      TotalOfOrders(o[..n], Without(p, i), m);
      TotalWithout(o, n, m);
      TotalWithout(p, i, m);
      assert Without(o, n) == o[..n];
    }
  }

  lemma RestSameNames(o: seq<seq<byte>>, p: seq<seq<byte>>, i: nat)
    requires SameNames(o, p) && o != [] && i < |p| && p[i] == o[|o| - 1]
    ensures SameNames(o[..|o| - 1], Without(p, i))
  {
    var n := |o| - 1;
    var q := Without(p, i);
    forall name | name in o[..n] ensures name in q {
      var k :| 0 <= k < n && o[k] == name;
      assert o[k] in p;
      var j :| 0 <= j < |p| && p[j] == name;
      assert q[if j < i then j else j - 1] == name;
    }
    forall name | name in q ensures name in o[..n] {
      var k :| 0 <= k < |q| && q[k] == name;
      var j := if k < i then k else k + 1;
      assert p[j] == name && p[j] in o;
      var l :| 0 <= l < |o| && o[l] == name;
      assert l < n;
      assert o[..n][l] == name;
    }
  }

  lemma TotalWithout(o: seq<seq<byte>>, i: nat, m: Kernels)
    requires i < |o| && forall k :: 0 <= k < |o| ==> o[k] in m
    ensures forall k :: 0 <= k < |o| - 1 ==> Without(o, i)[k] in m
    ensures Total(InOrder(o, m)) == Total(InOrder(Without(o, i), m)) + Size(m[o[i]])
  {
    hide Size, Total, InOrder;
    var a, b, x := InOrder(o[..i], m), InOrder(o[i + 1..], m), m[o[i]];
    InOrderParts(o, i, m);
    TotalConcat(a, [x] + b);
    TotalConcat([x], b);
    TotalConcat(a, b);
    TotalOne(x);
  }

  lemma InOrderParts(o: seq<seq<byte>>, i: nat, m: Kernels)
    requires i < |o| && forall k :: 0 <= k < |o| ==> o[k] in m
    ensures forall k :: 0 <= k < |o| - 1 ==> Without(o, i)[k] in m
    ensures InOrder(o, m) == InOrder(o[..i], m) + ([m[o[i]]] + InOrder(o[i + 1..], m))
    ensures InOrder(Without(o, i), m) == InOrder(o[..i], m) + InOrder(o[i + 1..], m)
  {}

  lemma TotalOne(k: Kernel)
    ensures Total([k]) == Size(k)
  {
    hide Size;
    assert [k][1..] == [];
  }

  /** Any name can come last. */
  function MovedLast(order: seq<seq<byte>>, i: nat): seq<seq<byte>>
    requires i < |order|
  {
    Without(order, i) + [order[i]]
  }

  /** Where the name at place `k` was before. */
  function Origin(k: nat, i: nat, n: nat): nat {
    if k < i then k else if k < n - 1 then k + 1 else i
  }

  lemma MovedLastAt(order: seq<seq<byte>>, i: nat)
    requires i < |order|
    ensures |MovedLast(order, i)| == |order|
    ensures forall k :: 0 <= k < |order| ==> 0 <= Origin(k, i, |order|) < |order|
    ensures forall k :: 0 <= k < |order| ==> MovedLast(order, i)[k] == order[Origin(k, i, |order|)]
  {}

  lemma MovedLastEnumerates(order: seq<seq<byte>>, i: nat, m: Kernels)
    requires Enumerates(order, m) && i < |order|
    ensures Enumerates(MovedLast(order, i), m)
  {
    EnumeratesFacts(order, m);
    MovedLastAt(order, i);
    MovedLastDistinct(order, i);
    hide MovedLast, Enumerates;
    var q := MovedLast(order, i);
    forall name | name in m ensures name in q {
      MovedLastHolds(order, i, name);
    }
    assert Enumerates(q, m) by { EnumeratesBy(q, m); }
  }

  lemma EnumeratesBy(q: seq<seq<byte>>, m: Kernels)
    requires forall k :: 0 <= k < |q| ==> q[k] in m
    requires forall name :: name in m ==> name in q
    requires forall k, l :: 0 <= k < l < |q| ==> q[k] != q[l]
    ensures Enumerates(q, m)
  {}

  lemma MovedLastHolds(order: seq<seq<byte>>, i: nat, name: seq<byte>)
    requires i < |order| && name in order
    ensures name in MovedLast(order, i)
  {
    MovedLastAt(order, i);
    hide MovedLast;
    var n, q := |order|, MovedLast(order, i);
    var j :| 0 <= j < n && order[j] == name;
    var k := if j < i then j else if j == i then n - 1 else j - 1;
    assert Origin(k, i, n) == j && q[k] == name;
  }

  lemma MovedLastDistinct(order: seq<seq<byte>>, i: nat)
    requires i < |order| && forall k, l :: 0 <= k < l < |order| ==> order[k] != order[l]
    ensures var q := MovedLast(order, i); forall k, l :: 0 <= k < l < |q| ==> q[k] != q[l]
  {
    MovedLastAt(order, i);
    hide MovedLast;
    var n, q := |order|, MovedLast(order, i);
    forall k, l | 0 <= k < l < n ensures q[k] != q[l] {
      var a, b := Origin(k, i, n), Origin(l, i, n);
      assert a != b;
      assert if a < b then order[a] != order[b] else order[b] != order[a];
    }
  }

  /**
   * A caller does not know the order of the hash map. Building succeeds in every order if and only if
   * there is nothing to build, or no kernel is without content and all fit below the copy limit.
   */
  lemma BuildableInEveryOrder(order: seq<seq<byte>>, m: Kernels)
    requires Enumerates(order, m)
    ensures (forall o :: Enumerates(o, m) ==> Buildable(InOrder(o, m)))
       <==> m == map[] || (Total(InOrder(order, m)) <= SECUREC_MEM_MAX_LEN && forall name :: name in m ==> |m[name].bin| > 0)
  {
    hide Total, Buildable;
    EnumeratesFacts(order, m);
    if forall o :: Enumerates(o, m) ==> Buildable(InOrder(o, m)) {
      assert Buildable(InOrder(order, m));
      EveryOrderBuilds(order, m);
    }
    if m == map[] || (Total(InOrder(order, m)) <= SECUREC_MEM_MAX_LEN && forall name :: name in m ==> |m[name].bin| > 0) {
      forall o | Enumerates(o, m) ensures Buildable(InOrder(o, m)) {
        OrderBuilds(order, o, m);
      }
    }
  }

  lemma EveryOrderBuilds(order: seq<seq<byte>>, m: Kernels)
    requires Enumerates(order, m) && forall o :: Enumerates(o, m) ==> Buildable(InOrder(o, m))
    ensures forall name :: name in m ==> |m[name].bin| > 0
    ensures m == map[] || Total(InOrder(order, m)) <= SECUREC_MEM_MAX_LEN
  {
    hide Total;
    EnumeratesFacts(order, m);
    assert Buildable(InOrder(order, m));
    forall name | name in m ensures |m[name].bin| > 0 {
      var i :| 0 <= i < |order| && order[i] == name;
      MovedLastEnumerates(order, i, m);
      assert Buildable(InOrder(MovedLast(order, i), m));
    }
  }

  lemma OrderBuilds(order: seq<seq<byte>>, o: seq<seq<byte>>, m: Kernels)
    requires Enumerates(order, m) && Enumerates(o, m)
    requires m == map[] || (Total(InOrder(order, m)) <= SECUREC_MEM_MAX_LEN && forall name :: name in m ==> |m[name].bin| > 0)
    ensures Buildable(InOrder(o, m))
  {
    hide Total;
    EnumeratesFacts(o, m);
    SameEnumerations(order, o, m);
    TotalOfOrders(order, o, m);
  }

  lemma EnumeratesFacts(o: seq<seq<byte>>, m: Kernels)
    requires Enumerates(o, m)
    ensures forall i :: 0 <= i < |o| ==> o[i] in m
    ensures forall name :: name in m ==> name in o
    ensures m == map[] <==> o == []
  {
    assert |o| > 0 ==> o[0] in m;
    if o == [] {
      assert forall name :: name !in m;
    }
  }

  lemma SameEnumerations(o: seq<seq<byte>>, p: seq<seq<byte>>, m: Kernels)
    requires Enumerates(o, m) && Enumerates(p, m)
    ensures SameNames(o, p)
  {}

  // ----- the store

  class KernelStore {
    var kernels: Kernels
    var buffer: seq<byte>

    constructor ()
      ensures kernels == map[] && buffer == [] && Filed(kernels)
    {
      kernels, buffer := map[], [];
    }

    /** A null pointer is ignored; a kernel replaces the one of the same name. */
    method AddKernel(k: KernelPtr)
      requires Filed(kernels)
      modifies this`kernels
      ensures Filed(kernels)
      ensures kernels == if k.Null? then old(kernels) else old(kernels)[k.kernel.name := k.kernel]
    {
      if k != Null {
        kernels := kernels[k.kernel.name := k.kernel];
      }
    }

    /**
     * Packs the kernels in the given iteration order and empties the map. It fails exactly when the
     * buffer is above the copy limit or the last item has no content, and then keeps the map.
     */
    method Build(order: seq<seq<byte>>) returns (ok: bool)
      requires Enumerates(order, kernels)
      modifies this
      ensures ok <==> Buildable(InOrder(order, old(kernels)))
      ensures !ok ==> kernels == old(kernels)
      ensures ok ==> kernels == map[]
      ensures ok ==> Sized(InOrder(order, old(kernels))) && buffer == EncodeAll(InOrder(order, old(kernels)))
    {
      hide EncodeAll, Total, InOrder, Sized, Size, Buildable;
      buffer := [];
      var items := InOrder(order, kernels);
      var total := TotalLength(items);
      var buf := new byte[total];
      ok := PackAll(items, buf);
      buffer := buf[..];
      if ok {
        kernels := map[];
      }
    }

    /**
     * Reads items until the rest is too short for the next one; names already present stay. Every read
     * stays inside the buffer if and only if no head that is reached has lengths that seem to fit only
     * because their 32-bit sum wraps around; such a head ends the model with `Overrun`.
     */
    method Load(data: seq<byte>) returns (r: LoadResult)
      modifies this`kernels
      ensures r == Refused <==> data == []
      ensures r == Overrun <==> Overruns(data)
      ensures kernels == Merge(old(kernels), Items(data))
    {
      hide NameLen, BinLen, Items, Overruns, Merge;
      if |data| == 0 {
        NothingLeft(kernels, data);
        return Refused;
      }
      var left := |data|;
      assert data[0..] == data;
      while left > HEAD
        invariant 0 <= left <= |data|
        invariant Overruns(data[|data| - left..]) <==> Overruns(data)
        invariant Merge(kernels, Items(data[|data| - left..])) == Merge(old(kernels), Items(data))
      {
        var at := data[|data| - left..];
        var nameLen, binLen := NameLen(at), BinLen(at);
        ItemsByLengths(at, nameLen, binLen);
        OverrunsByLengths(at, nameLen, binLen);
        MergeNothing(kernels);
        if left < (nameLen + binLen) % WORD + HEAD {
          SumAtLeast(nameLen + binLen);
          return Done;
        }
        if left < HEAD + nameLen + binLen {
          return Overrun;
        }
        var name := at[HEAD..HEAD + nameLen];
        var bin := at[HEAD + nameLen..HEAD + nameLen + binLen];
        ghost var rest := at[HEAD + nameLen + binLen..];
        MergeNext(kernels, Kernel(name, bin), Items(rest));
        if name !in kernels {
          kernels := kernels[name := Kernel(name, bin)];
        }
        assert rest == data[|data| - (left - (HEAD + nameLen + binLen))..];
        left := left - (HEAD + nameLen + binLen);
      }
      NothingLeft(kernels, data[|data| - left..]);
      r := Done;
    }

    function FindKernel(name: seq<byte>): (r: KernelPtr)
      reads this`kernels
      ensures r.Null? <==> name !in kernels
      ensures r.Ptr? ==> r.kernel == kernels[name] && (Filed(kernels) ==> r.kernel.name == name)
    {
      if name in kernels then Ptr(kernels[name]) else Null
    }
  }

  datatype LoadResult = Refused | Done | Overrun

  datatype KernelPtr = Null | Ptr(kernel: Kernel)

  lemma TotalStep(items: seq<Kernel>, i: nat)
    requires i < |items|
    ensures Total(items[i..]) == Size(items[i]) + Total(items[i + 1..])
    ensures Total(items[i + 1..]) > 0 <==> i + 1 < |items|
  {
    assert items[i..][1..] == items[i + 1..];
  }

  method TotalLength(items: seq<Kernel>) returns (total: nat)
    ensures total == Total(items)
  {
    total := 0;
    NothingPacked(items);
    for i := 0 to |items|
      invariant total + Total(items[i..]) == Total(items)
    {
      TotalStep(items, i);
      total := total + HEAD + |items[i].name| + |items[i].bin|;
    }
  }

  /** The second pass of `Build`: a pointer and the remaining length move over the buffer. */
  method PackAll(items: seq<Kernel>, buf: array<byte>) returns (ok: bool)
    requires buf.Length == Total(items)
    modifies buf
    ensures ok <==> Buildable(items)
    ensures ok ==> Sized(items) && buf[..] == EncodeAll(items)
  {
    hide EncodeAll, EncodeItem, Total, Size;
    NothingPacked(items);
    var next: nat, remain: nat := 0, buf.Length;
    for i := 0 to |items|
      invariant Sized(items[..i])
      invariant next + remain == buf.Length && remain == Total(items[i..])
      invariant buf[..next] == EncodeAll(items[..i])
      invariant i > 0 ==> buf.Length <= SECUREC_MEM_MAX_LEN
      invariant i == |items| > 0 ==> |items[i - 1].bin| > 0
    {
      TotalStep(items, i);
      SizeIs(items[i]);
      var copied := PackItem(buf, next, remain, items[i]);
      if !copied {
        return false;
      }
      assert items[..i + 1] == items[..i] + [items[i]];
      EncodeAppend(items[..i], items[i]);
      next := next + Size(items[i]);
      remain := remain - Size(items[i]);
    }
    assert items[..|items|] == items;
    ok := true;
  }

  lemma SizeIs(k: Kernel)
    ensures Size(k) == HEAD + |k.name| + |k.bin|
  {}

  lemma NothingPacked(items: seq<Kernel>)
    ensures items[..0] == [] && EncodeAll([]) == [] && items[0..] == items && Total(items[|items|..]) == 0
  {}

  /** The three bounded copies of one item, each against the room that is left. */
  method PackItem(buf: array<byte>, next: nat, remain: nat, k: Kernel) returns (ok: bool)
    requires next + remain == buf.Length && Size(k) <= remain
    modifies buf
    ensures ok <==> remain <= SECUREC_MEM_MAX_LEN && HEAD + |k.name| < remain
    ensures ok ==> |k.name| + |k.bin| < WORD
    ensures ok ==> buf[..next + Size(k)] == old(buf[..next]) + EncodeItem(k)
  {
    hide Head, EncodeItem;
    var nameLen, binLen := |k.name| % WORD, |k.bin| % WORD;
    var head := Head(nameLen, binLen);
    ghost var done := buf[..next];
    ok := BoundedCopy(buf, next, remain, head, 0, HEAD, 1);
    if !ok {
      return;
    }
    assert nameLen == |k.name| && binLen == |k.bin|;
    assert head[0..HEAD] == head && k.name[0..nameLen] == k.name && k.bin[0..binLen] == k.bin;
    var at := next + HEAD;
    ok := BoundedCopy(buf, at, remain - HEAD, k.name, 0, nameLen, 1);
    if !ok {
      return;
    }
    ok := BoundedCopy(buf, at + nameLen, remain - HEAD - nameLen, k.bin, 0, binLen, 1);
    if ok {
      assert buf[..at + nameLen + binLen] == done + head + k.name + k.bin;
      ItemLayout(done, k);
    }
  }

  lemma ItemLayout(done: seq<byte>, k: Kernel)
    requires |k.name| + |k.bin| < WORD
    ensures done + Head(|k.name|, |k.bin|) + k.name + k.bin == done + EncodeItem(k)
  {
    hide Head;
    var h := Head(|k.name|, |k.bin|);
    assert done + h + k.name + k.bin == done + (h + k.name + k.bin);
  }
}
