/**
  Code lengths as run-length items (section 3.2.7 of RFC 1951): what scan_tree counts, what
  send_tree sends (zlib's trees.c), and how the decoder expands it (state CODELENS in inflate.c).
 */
module RunLengths {
  import opened Arithmetic
  import opened Bits
  import opened BitWriter

  const REP_3_6: nat := 16
  const REPZ_3_10: nat := 17
  const REPZ_11_138: nat := 18
  const GUARD: nat := 0xffff

  /** The order in which the lengths of the code length codes are sent. */
  const BL_ORDER: seq<nat> := [16, 17, 18, 0, 8, 7, 9, 6, 10, 5, 11, 4, 12, 3, 13, 2, 14, 1, 15]

  /** A symbol of the code length alphabet with the value of its extra bits. */
  datatype Item = Item(sym: nat, extra: nat, bits: nat)

  /** The longest run to collect for the length `cur` after the length `prev`. */
  function MaxCount(prev: int, cur: nat): nat {
    if cur == 0 then 138 else if prev == cur then 6 else 7
  }

  /** The shortest run that is sent as a repetition. */
  function MinCount(prev: int, cur: nat): nat {
    if cur == 0 || prev == cur then 3 else 4
  }

  function Copies(cur: nat, n: nat): (s: seq<Item>)
    ensures |s| == n
  {
    if n == 0 then [] else Copies(cur, n - 1) + [Item(cur, 0, 0)]
  }

  /** How a run of `count` lengths `cur` after the length `prev` is sent. */
  function Run(prev: int, cur: nat, count: nat): seq<Item> {
    if count < MinCount(prev, cur) then Copies(cur, count)
    else if cur != 0 then
      if cur != prev then [Item(cur, 0, 0), Item(REP_3_6, count - 4, 2)] else [Item(REP_3_6, count - 3, 2)]
    else if count <= 10 then [Item(REPZ_3_10, count - 3, 3)]
    else [Item(REPZ_11_138, Max(count - 11, 0), 7)]
  }

  /** The length after position `n`, or the guard. */
  function NextLength(lens: seq<nat>, n: nat): nat {
    if n + 1 < |lens| then lens[n + 1] else GUARD
  }

  /** The items for `lens[n - count..]`, where the run has `count` members so far. */
  function ItemsFrom(lens: seq<nat>, n: nat, prev: int, count: nat): seq<Item>
    requires n <= |lens|
    decreases |lens| - n
  {
    if n == |lens| then []
    else if count + 1 < MaxCount(prev, lens[n]) && lens[n] == NextLength(lens, n) then
      ItemsFrom(lens, n + 1, prev, count + 1)
    else
      Run(prev, lens[n], count + 1) + ItemsFrom(lens, n + 1, lens[n], 0)
  }

  function Items(lens: seq<nat>): seq<Item> {
    ItemsFrom(lens, 0, -1, 0)
  }

  // ---------- expanding ----------

  datatype Expansion = Lengths(lens: seq<nat>) | BadRepeat

  function Repeat(x: nat, n: nat): (s: seq<nat>)
    ensures |s| == n
    ensures forall i :: 0 <= i < n ==> s[i] == x
  {
    seq(n, _ => x)
  }

  /** One step of the decoder: `have` are the lengths decoded before, `total` is how many there are to be. */
  function ExpandOne(item: Item, have: seq<nat>, total: nat): Expansion {
    if item.sym < 16 then Lengths(have + [item.sym])
    else if item.sym == REP_3_6 && have == [] then BadRepeat
    else
      var len := if item.sym == REP_3_6 then have[|have| - 1] else 0;
      var copy := (if item.sym == REPZ_11_138 then 11 else 3) + item.extra;
      if |have| + copy > total then BadRepeat else Lengths(have + Repeat(len, copy))
  }

  function Expand(items: seq<Item>, have: seq<nat>, total: nat): Expansion {
    if items == [] then Lengths(have)
    else
      var next := ExpandOne(items[0], have, total);
      if next.BadRepeat? then BadRepeat else Expand(items[1..], next.lens, total)
  }

  lemma {:induction false} ExpandAppend(a: seq<Item>, b: seq<Item>, have: seq<nat>, mid: seq<nat>, total: nat)
    requires Expand(a, have, total) == Lengths(mid)
    ensures Expand(a + b, have, total) == Expand(b, mid, total)
  {
    if a == [] {
      assert a + b == b;
    } else {
      assert (a + b)[1..] == a[1..] + b;
      ExpandAppend(a[1..], b, ExpandOne(a[0], have, total).lens, mid, total);
    }
  }

  lemma {:induction false} ExpandCopies(cur: nat, n: nat, have: seq<nat>, total: nat)
    requires cur < 16
    ensures Expand(Copies(cur, n), have, total) == Lengths(have + Repeat(cur, n))
  {
    if n == 0 {
      assert have + Repeat(cur, 0) == have;
    } else {
      ExpandCopies(cur, n - 1, have, total);
      var last := [Item(cur, 0, 0)];
      ExpandAppend(Copies(cur, n - 1), last, have, have + Repeat(cur, n - 1), total);
      assert last[1..] == [];
      assert have + Repeat(cur, n - 1) + [cur] == have + Repeat(cur, n);
    }
  }

  lemma ExpandSingle(item: Item, have: seq<nat>, total: nat)
    ensures Expand([item], have, total) == ExpandOne(item, have, total)
  {
    assert [item][1..] == [];
  }

  /** A run expands to its lengths. */
  lemma ExpandRun(prev: int, cur: nat, count: nat, have: seq<nat>, total: nat)
    requires cur < 16 && 1 <= count <= MaxCount(prev, cur) && |have| + count <= total
    requires prev >= 0 ==> have != [] && have[|have| - 1] == prev
    ensures Expand(Run(prev, cur, count), have, total) == Lengths(have + Repeat(cur, count))
  {
    if count < MinCount(prev, cur) {
      ExpandCopies(cur, count, have, total);
    } else if cur != 0 && cur != prev {
      var first, rest := Item(cur, 0, 0), Item(REP_3_6, count - 4, 2);
      ExpandSingle(first, have, total);
      ExpandSingle(rest, have + [cur], total);
      ExpandAppend([first], [rest], have, have + [cur], total);
      assert [first] + [rest] == Run(prev, cur, count);
      assert have + [cur] + Repeat(cur, count - 1) == have + Repeat(cur, count);
    } else {
      ExpandSingle(Run(prev, cur, count)[0], have, total);
    }
  }

  lemma ExpandNothing(have: seq<nat>, total: nat)
    ensures Expand([], have, total) == Lengths(have)
  {
  }

  /** The run that ends at position `n`, behind what comes before it. */
  lemma RunBehind(lens: seq<nat>, n: nat, c: nat, have: seq<nat>)
    requires 1 <= c <= n + 1 <= |lens| && forall i :: n + 1 - c <= i < n ==> lens[i] == lens[n]
    ensures have + lens[..n + 1 - c] + Repeat(lens[n], c) == have + lens[..n + 1]
  {
    assert lens[..n + 1 - c] + Repeat(lens[n], c) == lens[..n + 1];
  }

  /** Section 3.2.7 of RFC 1951 round trip: the items of a vector of lengths expand to it after any others. */
  lemma {:induction false} ExpandItemsFrom(lens: seq<nat>, n: nat, prev: int, count: nat, have: seq<nat>, total: nat)
    requires count <= n <= |lens| && |have| + |lens| <= total && forall i :: 0 <= i < |lens| ==> lens[i] < 16
    requires n < |lens| ==> (count > 0 ==> count < MaxCount(prev, lens[n])) && forall i :: n - count <= i < n ==>
              lens[i] == lens[n]
    requires n == |lens| ==> count == 0
    requires prev == if n == count then -1 else lens[n - count - 1]
    ensures Expand(ItemsFrom(lens, n, prev, count), have + lens[..n - count], total) == Lengths(have + lens)
    decreases |lens| - n
  {
    hide Expand, Run, Repeat;
    if n == |lens| {
      assert lens[..n] == lens;
      ExpandNothing(have + lens, total);
    } else {
      var cur, c, before := lens[n], count + 1, have + lens[..n - count];
      if c < MaxCount(prev, cur) && cur == NextLength(lens, n) {
        ExpandItemsFrom(lens, n + 1, prev, c, have, total);
      } else {
        ExpandItemsFrom(lens, n + 1, cur, 0, have, total);
        ExpandRun(prev, cur, c, before, total);
        RunBehind(lens, n, c, have);
        ExpandAppend(Run(prev, cur, c), ItemsFrom(lens, n + 1, cur, 0), before, have + lens[..n + 1], total);
      }
    }
  }

  /** The literal lengths followed by the distance lengths come back as they were sent. */
  lemma TwoTreesRoundTrip(llens: seq<nat>, dlens: seq<nat>)
    requires forall i :: 0 <= i < |llens| ==> llens[i] < 16
    requires forall i :: 0 <= i < |dlens| ==> dlens[i] < 16
    ensures Expand(Items(llens) + Items(dlens), [], |llens| + |dlens|) == Lengths(llens + dlens)
  {
    hide Expand, Items;
    var total := |llens| + |dlens|;
    ExpandItems(llens, [], total);
    ExpandItems(dlens, llens, total);
    assert [] + llens == llens;
    ExpandAppend(Items(llens), Items(dlens), [], llens, total);
  }

  /** The items of a vector of lengths expand to it after any others. */
  lemma ExpandItems(lens: seq<nat>, have: seq<nat>, total: nat)
    requires |have| + |lens| <= total && forall i :: 0 <= i < |lens| ==> lens[i] < 16
    ensures Expand(Items(lens), have, total) == Lengths(have + lens)
  {
    hide Expand, ItemsFrom;
    ExpandItemsFrom(lens, 0, -1, 0, have, total);
    assert have + lens[..0] == have;
  }

  // ---------- counting and sending ----------

  /** How often a symbol occurs. */
  function Occurs(items: seq<Item>, k: nat): nat {
    if items == [] then 0 else Occurs(items[..|items| - 1], k) + if items[|items| - 1].sym == k then 1 else 0
  }

  lemma {:induction false} OccursAppend(a: seq<Item>, b: seq<Item>, k: nat)
    ensures Occurs(a + b, k) == Occurs(a, k) + Occurs(b, k)
  {
    if b == [] {
      assert a + b == a;
    } else {
      assert (a + b)[..|a + b| - 1] == a + b[..|b| - 1];
      OccursAppend(a, b[..|b| - 1], k);
    }
  }

  lemma {:induction false} OccursCopies(cur: nat, n: nat, k: nat)
    ensures Occurs(Copies(cur, n), k) == if k == cur then n else 0
  {
    if n > 0 {
      OccursCopies(cur, n - 1, k);
      assert Copies(cur, n)[..n - 1] == Copies(cur, n - 1);
    }
  }

  /** What a run adds to the frequency of symbol `k`. */
  function RunCount(prev: int, cur: nat, count: nat, k: nat): nat {
    if count < MinCount(prev, cur) then (if k == cur then count else 0)
    else if cur != 0 then (if k == cur && cur != prev then 1 else 0) + (if k == REP_3_6 then 1 else 0)
    else if count <= 10 then (if k == REPZ_3_10 then 1 else 0)
    else if k == REPZ_11_138 then 1 else 0
  }

  lemma OccursSingle(item: Item, k: nat)
    ensures Occurs([item], k) == if item.sym == k then 1 else 0
  {
    assert [item][..0] == [];
  }

  lemma RunOccurs(prev: int, cur: nat, count: nat, k: nat)
    requires cur < 16 && count > 0
    ensures Occurs(Run(prev, cur, count), k) == RunCount(prev, cur, count, k)
  {
    hide Occurs;
    var run := Run(prev, cur, count);
    if count < MinCount(prev, cur) {
      OccursCopies(cur, count, k);
    } else if cur != 0 && cur != prev {
      OccursSingle(run[0], k);
      OccursSingle(run[1], k);
      OccursAppend([run[0]], [run[1]], k);
      assert run == [run[0]] + [run[1]];
    } else {
      OccursSingle(run[0], k);
      assert run == [run[0]];
    }
  }

  /** The limits that both loops keep for the length at position `n`. */
  predicate Limits(lens: seq<nat>, n: nat, prevlen: int, nextlen: nat, maxCount: nat, minCount: nat) {
    && nextlen == (if n < |lens| then lens[n] else GUARD)
    && (n < |lens| ==> maxCount == MaxCount(prevlen, nextlen) && minCount == MinCount(prevlen, nextlen))
  }

  /** Counts the items for the lengths up to `maxCode`, after putting a guard behind them. */
  method ScanTree(dl: array<nat>, maxCode: nat, freq: array<nat>)
    requires dl != freq && maxCode + 1 < dl.Length && freq.Length >= 19
    requires forall i :: 0 <= i <= maxCode ==> dl[i] < 16
    modifies dl, freq
    ensures dl[..] == old(dl[..])[maxCode + 1 := GUARD]
    ensures forall k :: 0 <= k < freq.Length ==> freq[k] == old(freq[k]) + Occurs(Items(old(dl[..maxCode + 1])), k)
  {
    hide Run, ItemsFrom, Occurs;
    ghost var lens: seq<nat> := dl[..maxCode + 1];
    var prevlen: int, nextlen: nat, count: nat, maxCount: nat, minCount: nat := -1, dl[0], 0, 7, 4;
    if nextlen == 0 {
      maxCount, minCount := 138, 3;
    }
    dl[maxCode + 1] := GUARD;
    var n: nat := 0;
    while n <= maxCode
      invariant n <= maxCode + 1 && Limits(lens, n, prevlen, nextlen, maxCount, minCount)
      invariant dl[..] == old(dl[..])[maxCode + 1 := GUARD]
      invariant forall k :: 0 <= k < freq.Length ==>
                  freq[k] + Occurs(ItemsFrom(lens, n, prevlen, count), k) == old(freq[k]) + Occurs(Items(lens), k)
    {
      var curlen := nextlen;
      nextlen := dl[n + 1];
      assert nextlen == NextLength(lens, n);
      count := count + 1;
      ItemsStep(lens, n, prevlen, count - 1);
      if count < maxCount && curlen == nextlen {
        n := n + 1;
        continue;
      }
      CountRun(lens, n, prevlen, curlen, count);
      ghost var f := freq[..];
      if count < minCount {
        freq[curlen] := freq[curlen] + count;
      } else if curlen != 0 {
        if curlen != prevlen {
          freq[curlen] := freq[curlen] + 1;
        }
        freq[REP_3_6] := freq[REP_3_6] + 1;
      } else if count <= 10 {
        freq[REPZ_3_10] := freq[REPZ_3_10] + 1;
      } else {
        freq[REPZ_11_138] := freq[REPZ_11_138] + 1;
      }
      assert forall k :: 0 <= k < freq.Length ==> freq[k] == f[k] + RunCount(prevlen, curlen, count, k);
      count, prevlen := 0, curlen;
      if nextlen == 0 {
        maxCount, minCount := 138, 3;
      } else if curlen == nextlen {
        maxCount, minCount := 6, 3;
      } else {
        maxCount, minCount := 7, 4;
      }
      n := n + 1;
    }
    NoItems(lens, prevlen, count);
  }

  lemma ItemsStep(lens: seq<nat>, n: nat, prev: int, count: nat)
    requires n < |lens|
    ensures ItemsFrom(lens, n, prev, count) ==
            if count + 1 < MaxCount(prev, lens[n]) && lens[n] == NextLength(lens, n)
                then ItemsFrom(lens, n + 1, prev, count + 1)
            else Run(prev, lens[n], count + 1) + ItemsFrom(lens, n + 1, lens[n], 0)
  {
  }

  lemma NoItems(lens: seq<nat>, prev: int, count: nat)
    ensures ItemsFrom(lens, |lens|, prev, count) == [] && forall k: nat :: Occurs([], k) == 0
  {
  }

  lemma CountRun(lens: seq<nat>, n: nat, prev: int, cur: nat, count: nat)
    requires n < |lens| && cur == lens[n] < 16 && count > 0
    ensures forall k: nat :: Occurs(Run(prev, cur, count) + ItemsFrom(lens, n + 1, cur, 0), k) ==
                             Occurs(ItemsFrom(lens, n + 1, cur, 0), k) + RunCount(prev, cur, count, k)
  {
    forall k: nat
      ensures Occurs(Run(prev, cur, count) + ItemsFrom(lens, n + 1, cur, 0), k) ==
              Occurs(ItemsFrom(lens, n + 1, cur, 0), k) + RunCount(prev, cur, count, k)
    {
      OccursAppend(Run(prev, cur, count), ItemsFrom(lens, n + 1, cur, 0), k);
      RunOccurs(prev, cur, count, k);
    }
  }

  // ---------- sending ----------

  /** The bits of one item in the code of the code length alphabet. */
  function ItemBits(item: Item, code: seq<nat>, len: seq<nat>): seq<bool>
    requires item.sym < |code| && item.sym < |len|
  {
    ToBits(code[item.sym], len[item.sym]) + ToBits(item.extra, item.bits)
  }

  function Encode(items: seq<Item>, code: seq<nat>, len: seq<nat>): seq<bool>
    requires forall i :: 0 <= i < |items| ==> items[i].sym < |code| && items[i].sym < |len|
  {
    if items == [] then [] else ItemBits(items[0], code, len) + Encode(items[1..], code, len)
  }

  /** The item has a codeword, and its extra bits fit. */
  predicate Sendable(item: Item, code: seq<nat>, len: seq<nat>) {
    && item.sym < |code| && item.sym < |len|
    && 0 < len[item.sym] <= 15 && code[item.sym] < Pow2(len[item.sym])
    && item.bits <= 7 && item.extra < Pow2(item.bits)
  }

  lemma {:induction false} EncodeAppend(a: seq<Item>, b: seq<Item>, code: seq<nat>, len: seq<nat>)
    requires forall i :: 0 <= i < |a| ==> a[i].sym < |code| && a[i].sym < |len|
    requires forall i :: 0 <= i < |b| ==> b[i].sym < |code| && b[i].sym < |len|
    ensures Encode(a + b, code, len) == Encode(a, code, len) + Encode(b, code, len)
  {
    if a == [] {
      assert a + b == b;
    } else {
      assert (a + b)[1..] == a[1..] + b;
      EncodeAppend(a[1..], b, code, len);
      assert ItemBits(a[0], code, len) + (Encode(a[1..], code, len) + Encode(b, code, len)) ==
             ItemBits(a[0], code, len) + Encode(a[1..], code, len) + Encode(b, code, len);
    }
  }

  /** Sends one item: its codeword and then its extra bits. */
  method SendItem(w: Writer, item: Item, code: array<nat>, len: array<nat>)
    requires w.Valid() && Sendable(item, code[..], len[..]) && w.Apart(code) && w.Apart(len)
    requires 8 * w.pending + w.biValid + |ItemBits(item, code[..], len[..])| <= 8 * w.pendingBuf.Length
    modifies w`pending, w`biBuf, w`biValid, w.pendingBuf
    ensures w.Valid() && w.Sent() == old(w.Sent()) + ItemBits(item, code[..], len[..])
    ensures code[..] == old(code[..]) && len[..] == old(len[..])
    ensures 8 * w.pending + w.biValid == old(8 * w.pending + w.biValid) + |ItemBits(item, code[..], len[..])|
  {
    hide ToBits, Pow2, BytesToBits;
    w.SendBits(code[item.sym], len[item.sym]);
    if item.bits > 0 {
      w.SendBits(item.extra, item.bits);
    }
  }

  predicate AllSendable(items: seq<Item>, code: seq<nat>, len: seq<nat>) {
    forall i :: 0 <= i < |items| ==> Sendable(items[i], code, len)
  }

  /** There is room in the output for `n` more bits. */
  predicate Fits(w: Writer, n: nat)
    reads w
  {
    8 * w.pending + w.biValid + n <= 8 * w.pendingBuf.Length
  }

  /** Sends `count` items without extra bits for the length `cur`. */
  method SendCopies(w: Writer, cur: nat, count: nat, code: array<nat>, len: array<nat>)
    requires w.Valid() && w.Apart(code) && w.Apart(len) && AllSendable(Copies(cur, count), code[..], len[..])
    requires Fits(w, |Encode(Copies(cur, count), code[..], len[..])|)
    modifies w`pending, w`biBuf, w`biValid, w.pendingBuf
    ensures w.Valid() && w.Sent() == old(w.Sent()) + Encode(Copies(cur, count), code[..], len[..])
    ensures code[..] == old(code[..]) && len[..] == old(len[..])
    ensures 8 * w.pending + w.biValid == old(8 * w.pending + w.biValid)
              + |Encode(Copies(cur, count), code[..], len[..])|
  {
    hide ToBits, Pow2, BytesToBits, ItemBits, Copies, Encode;
    ghost var c, l := code[..], len[..];
    var k := count;
    while k > 0
      invariant 0 <= k <= count && w.Valid() && code[..] == c && len[..] == l && AllSendable(Copies(cur, k), c, l)
      invariant 8 * w.pending + w.biValid + |Encode(Copies(cur, k), c, l)| ==
                old(8 * w.pending + w.biValid) + |Encode(Copies(cur, count), c, l)|
      invariant w.Sent() + Encode(Copies(cur, k), c, l) == old(w.Sent()) + Encode(Copies(cur, count), c, l)
    {
      CopiesFirst(cur, k);
      assert Copies(cur, k)[0] == Item(cur, 0, 0) && Copies(cur, k)[1..] == Copies(cur, k - 1);
      EncodeFirst(Copies(cur, k), c, l);
      SendItem(w, Item(cur, 0, 0), code, len);
      k := k - 1;
    }
    EncodeNone(c, l);
    assert Copies(cur, 0) == [];
  }

  lemma EncodeFirst(items: seq<Item>, code: seq<nat>, len: seq<nat>)
    requires AllSendable(items, code, len) && items != []
    ensures Sendable(items[0], code, len) && AllSendable(items[1..], code, len)
    ensures Encode(items, code, len) == ItemBits(items[0], code, len) + Encode(items[1..], code, len)
  {
  }

  lemma EncodeNone(code: seq<nat>, len: seq<nat>)
    ensures Encode([], code, len) == []
  {
  }

  lemma {:induction false} CopiesAre(cur: nat, n: nat)
    ensures forall i :: 0 <= i < n ==> Copies(cur, n)[i] == Item(cur, 0, 0)
  {
    if n > 0 {
      CopiesAre(cur, n - 1);
    }
  }

  lemma CopiesFirst(cur: nat, n: nat)
    requires n > 0
    ensures Copies(cur, n) == [Item(cur, 0, 0)] + Copies(cur, n - 1)
  {
    CopiesAre(cur, n);
    CopiesAre(cur, n - 1);
  }

  /** Sends a run of `count` lengths `cur` after the length `prev`. */
  method SendRun(w: Writer, prev: int, cur: nat, count: nat, minCount: nat, code: array<nat>, len: array<nat>)
    requires w.Valid() && w.Apart(code) && w.Apart(len) && AllSendable(Run(prev, cur, count), code[..], len[..])
    requires minCount == MinCount(prev, cur) && count > 0
    requires Fits(w, |Encode(Run(prev, cur, count), code[..], len[..])|)
    modifies w`pending, w`biBuf, w`biValid, w.pendingBuf
    ensures w.Valid() && w.Sent() == old(w.Sent()) + Encode(Run(prev, cur, count), code[..], len[..])
    ensures code[..] == old(code[..]) && len[..] == old(len[..])
    ensures 8 * w.pending + w.biValid == old(8 * w.pending + w.biValid)
              + |Encode(Run(prev, cur, count), code[..], len[..])|
  {
    hide ToBits, Pow2, BytesToBits, ItemBits, Copies, Encode, Sendable, AllSendable;
    ghost var c, l, items := code[..], len[..], Run(prev, cur, count);
    if count < minCount {
      SendCopies(w, cur, count, code, len);
    } else if cur != 0 {
      EncodeFirst(items, c, l);
      var left := count;
      if cur != prev {
        SendItem(w, Item(cur, 0, 0), code, len);
        left := left - 1;
        items := items[1..];
        EncodeFirst(items, c, l);
      }
      SendItem(w, Item(REP_3_6, left - 3, 2), code, len);
      EncodeNone(c, l);
      assert items[1..] == [];
    } else if count <= 10 {
      EncodeFirst(items, c, l);
      EncodeNone(c, l);
      SendItem(w, Item(REPZ_3_10, count - 3, 3), code, len);
      assert items[1..] == [];
    } else {
      EncodeFirst(items, c, l);
      EncodeNone(c, l);
      SendItem(w, Item(REPZ_11_138, count - 11, 7), code, len);
      assert items[1..] == [];
    }
  }

  /** Sends the items for the lengths up to `maxCode`, which have a guard behind them. */
  method SendTree(w: Writer, dl: array<nat>, maxCode: nat, code: array<nat>, len: array<nat>)
    requires w.Valid() && w.Apart(code) && w.Apart(len) && w.Apart(dl) && maxCode + 1 < dl.Length
              && dl[maxCode + 1] == GUARD
    requires forall i :: 0 <= i <= maxCode ==> dl[i] < 16
    requires AllSendable(Items(dl[..maxCode + 1]), code[..], len[..])
    requires Fits(w, |Encode(Items(dl[..maxCode + 1]), code[..], len[..])|)
    modifies w`pending, w`biBuf, w`biValid, w.pendingBuf
    ensures w.Valid() && w.Sent() == old(w.Sent()) + Encode(Items(dl[..maxCode + 1]), code[..], len[..])
    ensures 8 * w.pending + w.biValid ==
            old(8 * w.pending + w.biValid) + |Encode(Items(dl[..maxCode + 1]), code[..], len[..])|
  {
    hide ToBits, Pow2, BytesToBits, ItemBits, Encode, Run, ItemsFrom;
    ghost var lens: seq<nat>, c, l := dl[..maxCode + 1], code[..], len[..];
    var prevlen: int, nextlen: nat, count: nat, maxCount: nat, minCount: nat := -1, dl[0], 0, 7, 4;
    if nextlen == 0 {
      maxCount, minCount := 138, 3;
    }
    var n: nat := 0;
    while n <= maxCode
      invariant n <= maxCode + 1 && Limits(lens, n, prevlen, nextlen, maxCount, minCount)
      invariant dl[..maxCode + 1] == lens && dl[maxCode + 1] == GUARD && code[..] == c && len[..] == l
      invariant w.Valid() && AllSendable(ItemsFrom(lens, n, prevlen, count), c, l)
      invariant w.Sent() + Encode(ItemsFrom(lens, n, prevlen, count), c, l) == old(w.Sent()) + Encode(Items(lens), c, l)
      invariant 8 * w.pending + w.biValid + |Encode(ItemsFrom(lens, n, prevlen, count), c, l)| ==
                old(8 * w.pending + w.biValid) + |Encode(Items(lens), c, l)|
    {
      var curlen := nextlen;
      nextlen := dl[n + 1];
      assert nextlen == NextLength(lens, n);
      count := count + 1;
      ItemsStep(lens, n, prevlen, count - 1);
      if count < maxCount && curlen == nextlen {
        n := n + 1;
        continue;
      }
      SplitSendable(Run(prevlen, curlen, count), ItemsFrom(lens, n + 1, curlen, 0), c, l);
      SendRun(w, prevlen, curlen, count, minCount, code, len);
      count, prevlen := 0, curlen;
      if nextlen == 0 {
        maxCount, minCount := 138, 3;
      } else if curlen == nextlen {
        maxCount, minCount := 6, 3;
      } else {
        maxCount, minCount := 7, 4;
      }
      n := n + 1;
    }
    NoItems(lens, prevlen, count);
    EncodeNone(c, l);
  }

  lemma SplitSendable(a: seq<Item>, b: seq<Item>, code: seq<nat>, len: seq<nat>)
    requires AllSendable(a + b, code, len)
    ensures AllSendable(a, code, len) && AllSendable(b, code, len)
    ensures Encode(a + b, code, len) == Encode(a, code, len) + Encode(b, code, len)
  {
    forall i | 0 <= i < |a|
      ensures Sendable(a[i], code, len)
    {
      assert (a + b)[i] == a[i];
    }
    forall i | 0 <= i < |b|
      ensures Sendable(b[i], code, len)
    {
      assert (a + b)[|a| + i] == b[i];
    }
    EncodeAppend(a, b, code, len);
  }
}
