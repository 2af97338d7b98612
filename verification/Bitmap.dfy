/** Bitmaps in words of 64 bits (include/linux/bitmap.h) as sets of positions. */
module Bitmap {
  import opened Words
  import opened Bitops

  const ALL_ONES: u64 := 0xFFFF_FFFF_FFFF_FFFF

  predicate BitAt(ws: seq<u64>, k: nat) {
    k / 64 < |ws| && Bit(ws[k / 64], k % 64)
  }

  /** The set bits below `n`. */
  ghost function Members(ws: seq<u64>, n: nat): set<nat> {
    set k: nat | k < n && BitAt(ws, k)
  }

  predicate Within(k: nat, lo: nat, hi: nat) {
    lo <= k < hi
  }

  ghost function Range(lo: nat, hi: nat): set<nat> {
    set k: nat | k < hi && Within(k, lo, hi)
  }

  // ----- masks

  /** BITMAP_FIRST_WORD_MASK. */
  function FirstWordMask(start: nat): u64 {
    ALL_ONES * Pow2(start % 64) % B64
  }

  /** BITMAP_LAST_WORD_MASK. */
  function LastWordMask(nbits: nat): (m: u64) {
    ShrDiv(ALL_ONES, (64 - nbits % 64) % 64);
    Shr(ALL_ONES, (64 - nbits % 64) % 64)
  }

  /** Just the bits from `lo` to `hi` are set. */
  ghost predicate MaskIs(mask: u64, lo: nat, hi: nat) {
    forall i: nat :: i < 64 ==> Bit(mask, i) == (lo <= i < hi)
  }

  lemma AllOnesBit(w: nat, i: nat)
    ensures Bit(Pow2(w) - 1, i) == (i < w)
  {
    NotBit(0, w, i);
    BitZero(i);
  }

  lemma OnesShifted(p: nat)
    requires 0 < p <= B64
    ensures ALL_ONES * p % B64 == B64 - p
  {
    QuotientIs(ALL_ONES * p, B64, p - 1);
  }

  lemma FirstWordMaskIs(start: nat)
    ensures MaskIs(FirstWordMask(start), start % 64, 64)
  {
    var s := start % 64;
    Pow2Values();
    Pow2Strict(s, 64);
    OnesShifted(Pow2(s));
    forall i: nat | i < 64 ensures Bit(FirstWordMask(start), i) == (s <= i) {
      assert FirstWordMask(start) == Not(Pow2(s) - 1, 64);
      NotBit(Pow2(s) - 1, 64, i);
      AllOnesBit(s, i);
    }
  }

  lemma ShiftedOnesBit(t: nat, i: nat)
    ensures Bit(Shr(ALL_ONES, t), i) == (i + t < 64)
  {
    Pow2Values();
    BitShift(ALL_ONES, t, i);
    AllOnesBit(64, i + t);
  }

  lemma LastWordMaskIs(nbits: nat)
    ensures MaskIs(LastWordMask(nbits), 0, if nbits % 64 == 0 then 64 else nbits % 64)
  {
    forall i: nat | i < 64 ensures Bit(LastWordMask(nbits), i) == (i < if nbits % 64 == 0 then 64 else nbits % 64) {
      ShiftedOnesBit((64 - nbits % 64) % 64, i);
    }
  }

  lemma AllOnesIs()
    ensures MaskIs(ALL_ONES, 0, 64)
  {
    Pow2Values();
    forall i: nat | i < 64 ensures Bit(ALL_ONES, i) { AllOnesBit(64, i); }
  }

  function AndWord(x: u64, y: u64): (r: u64) {
    AndLe(x, y);
    And(x, y)
  }

  function OrWord(x: u64, y: u64): (r: u64) {
    Pow2Values();
    OrBound(x, y, 64);
    Or(x, y)
  }

  function NotWord(x: u64): (r: u64) {
    ALL_ONES - x
  }

  lemma AndMask(m: u64, n: u64, lo: nat, mid: nat, hi: nat)
    requires MaskIs(m, lo, hi) && MaskIs(n, 0, mid) && mid <= hi
    ensures MaskIs(AndWord(m, n), lo, mid)
  {
    forall i: nat | i < 64 ensures Bit(AndWord(m, n), i) == (lo <= i < mid) { AndBit(m, n, i); }
  }

  // ----- setting and clearing

  /** The bits from `lo` to `hi` have become `v` and no other has changed. */
  ghost predicate Changed(was: seq<u64>, now: seq<u64>, lo: nat, hi: nat, v: bool) {
    |now| == |was| && forall k: nat :: k < 64 * |now| ==> BitAt(now, k) == if lo <= k < hi then v else BitAt(was, k)
  }

  /** The bits of one word under a mask. */
  ghost predicate WordChanged(was: u64, now: u64, lo: nat, hi: nat, v: bool) {
    forall i: nat :: i < 64 ==> Bit(now, i) == if lo <= i < hi then v else Bit(was, i)
  }

  lemma OrSets(x: u64, mask: u64, lo: nat, hi: nat)
    requires MaskIs(mask, lo, hi)
    ensures WordChanged(x, OrWord(x, mask), lo, hi, true)
  {
    forall i: nat | i < 64 ensures Bit(OrWord(x, mask), i) == if lo <= i < hi then true else Bit(x, i) {
      OrBit(x, mask, i);
    }
  }

  lemma AndNotClears(x: u64, mask: u64, lo: nat, hi: nat)
    requires MaskIs(mask, lo, hi)
    ensures WordChanged(x, AndWord(x, NotWord(mask)), lo, hi, false)
  {
    Pow2Values();
    forall i: nat | i < 64 ensures Bit(AndWord(x, NotWord(mask)), i) == if lo <= i < hi then false else Bit(x, i) {
      AndBit(x, NotWord(mask), i);
      assert NotWord(mask) == Not(mask, 64);
      NotBit(mask, 64, i);
    }
  }

  lemma WordStep(was: seq<u64>, ws: seq<u64>, now: seq<u64>, start: nat, p: nat, lo: nat, hi: nat, v: bool)
    requires Changed(was, ws, start, 64 * p + lo, v) && start <= 64 * p + lo && lo <= hi <= 64
    requires p < |ws| && |now| == |ws| && now == ws[p := now[p]] && WordChanged(ws[p], now[p], lo, hi, v)
    ensures Changed(was, now, start, 64 * p + hi, v)
  {
    forall k: nat | k < 64 * |now| ensures BitAt(now, k) == if start <= k < 64 * p + hi then v else BitAt(was, k) {
      assert BitAt(ws, k) == if start <= k < 64 * p + lo then v else BitAt(was, k);
      if k / 64 == p {
        assert k == 64 * p + k % 64;
      } else {
        assert now[k / 64] == ws[k / 64];
      }
    }
  }

  method FirstMask(start: nat) returns (mask: u64)
    ensures MaskIs(mask, start % 64, 64)
  {
    mask := FirstWordMask(start);
    FirstWordMaskIs(start);
  }

  /** Lines 64 and 85. */
  method LastMask(mask: u64, size: nat, ghost at: nat, ghost p: nat) returns (m: u64)
    requires MaskIs(mask, at, 64) && 64 * p + at < size < 64 * p + 64
    ensures MaskIs(m, at, size - 64 * p)
  {
    m := AndWord(mask, LastWordMask(size));
    LastWordMaskIs(size);
    assert size % 64 == size - 64 * p;
    AndMask(mask, LastWordMask(size), at, size - 64 * p, 64);
  }

  /** `*p |= mask`, which takes the change from bit `lo` of the word to `hi`. */
  method SetUnder(words: array<u64>, p: nat, mask: u64,
    ghost was: seq<u64>, ghost start: nat, ghost lo: nat, ghost hi: nat)
    requires p < words.Length && MaskIs(mask, lo, hi) && lo <= hi <= 64 && start <= 64 * p + lo
    requires Changed(was, words[..], start, 64 * p + lo, true)
    modifies words
    ensures Changed(was, words[..], start, 64 * p + hi, true)
  {
    ghost var ws := words[..];
    OrSets(words[p], mask, lo, hi);
    words[p] := OrWord(words[p], mask);
    WordStep(was, ws, words[..], start, p, lo, hi, true);
  }

  /** `__bitmap_set`. */
  method BitmapSet(words: array<u64>, start: nat, count: nat)
    requires start + count <= 64 * words.Length
    modifies words
    ensures Changed(old(words[..]), words[..], start, start + count, true)
  {
    ghost var was, at := words[..], start % 64;
    var p, size, len := start / 64, start + count, count as int;
    var span := 64 - start % 64;
    var mask := FirstMask(start);
    AllOnesIs();
    while len - span >= 0
      invariant 0 <= len && 64 * p + at + len == size && span == 64 - at && 0 <= at < 64
      invariant MaskIs(mask, at, 64) && start <= 64 * p + at && Changed(was, words[..], start, 64 * p + at, true)
    {
      SetUnder(words, p, mask, was, start, at, 64);
      at := 0;
      len := len - span;
      span, mask := 64, ALL_ONES;
      p := p + 1;
    }
    if len != 0 {
      mask := LastMask(mask, size, at, p);
      SetUnder(words, p, mask, was, start, at, size - 64 * p);
    }
  }

  /** `*p &= ~mask`, which takes the change from bit `lo` of the word to `hi`. */
  method ClearUnder(words: array<u64>, p: nat, mask: u64,
    ghost was: seq<u64>, ghost start: nat, ghost lo: nat, ghost hi: nat)
    requires p < words.Length && MaskIs(mask, lo, hi) && lo <= hi <= 64 && start <= 64 * p + lo
    requires Changed(was, words[..], start, 64 * p + lo, false)
    modifies words
    ensures Changed(was, words[..], start, 64 * p + hi, false)
  {
    ghost var ws := words[..];
    AndNotClears(words[p], mask, lo, hi);
    words[p] := AndWord(words[p], NotWord(mask));
    WordStep(was, ws, words[..], start, p, lo, hi, false);
  }

  /** `__bitmap_clear`. */
  method BitmapClear(words: array<u64>, start: nat, count: nat)
    requires start + count <= 64 * words.Length
    modifies words
    ensures Changed(old(words[..]), words[..], start, start + count, false)
  {
    ghost var was, at := words[..], start % 64;
    var p, size, len := start / 64, start + count, count as int;
    var span := 64 - start % 64;
    var mask := FirstMask(start);
    AllOnesIs();
    while len - span >= 0
      invariant 0 <= len && 64 * p + at + len == size && span == 64 - at && 0 <= at < 64
      invariant MaskIs(mask, at, 64) && start <= 64 * p + at && Changed(was, words[..], start, 64 * p + at, false)
    {
      ClearUnder(words, p, mask, was, start, at, 64);
      at := 0;
      len := len - span;
      span, mask := 64, ALL_ONES;
      p := p + 1;
    }
    if len != 0 {
      mask := LastMask(mask, size, at, p);
      ClearUnder(words, p, mask, was, start, at, size - 64 * p);
    }
  }

  /** On sets: a range is added, or taken away. */
  lemma ChangedMembers(was: seq<u64>, now: seq<u64>, lo: nat, hi: nat, v: bool)
    requires Changed(was, now, lo, hi, v) && hi <= 64 * |was|
    ensures var n := 64 * |was|;
            Members(now, n) == if v then Members(was, n) + Range(lo, hi) else Members(was, n) - Range(lo, hi)
  {
  }

  // ----- searching

  /** `r` is the least set bit from `lo` on, or `size` when there is none below it. */
  ghost predicate IsNext(ws: seq<u64>, size: nat, lo: nat, r: nat) {
    && (forall k: nat :: lo <= k < r ==> !BitAt(ws, k))
    && (r == size || (lo <= r < size && BitAt(ws, r)))
  }

  /** `tmp` is the word at bit `base`, without what is below `lo`. */
  ghost predicate Window(ws: seq<u64>, tmp: u64, base: nat, lo: nat, hi: nat) {
    forall i: nat :: i < 64 ==> Bit(tmp, i) == (lo <= base + i < hi && BitAt(ws, base + i))
  }

  lemma WindowEmpty(ws: seq<u64>, base: nat, lo: nat, hi: nat)
    requires Window(ws, 0, base, lo, hi) && hi <= base + 64
    requires forall k: nat :: lo <= k < base ==> !BitAt(ws, k)
    ensures forall k: nat :: lo <= k < hi ==> !BitAt(ws, k)
  {
    forall k: nat | lo <= k < hi ensures !BitAt(ws, k) {
      if k >= base {
        BitZero(k - base);
        assert Bit(0, k - base) == (lo <= base + (k - base) < hi && BitAt(ws, base + (k - base)));
      }
    }
  }

  /** Line 139: the lowest bit of the word at hand. */
  method FoundMiddle(ghost ws: seq<u64>, tmp: u64, base: nat, ghost lo: nat, ghost hi: nat, ghost size: nat)
    returns (r: nat)
    requires tmp != 0 && Window(ws, tmp, base, lo, hi) && hi <= size
    requires forall k: nat :: lo <= k < base ==> !BitAt(ws, k)
    ensures IsNext(ws, size, lo, r) && BitAt(ws, r)
  {
    var n := Ffs(tmp);
    r := base + n;
    LowestBit(tmp, n);
    forall k: nat | lo <= k < r ensures !BitAt(ws, k) {
      if k >= base {
        LowestBit(tmp, k - base);
        assert Bit(tmp, k - base) == (lo <= base + (k - base) < hi && BitAt(ws, base + (k - base)));
        assert r < hi;
      }
    }
  }

  lemma WordWindow(ws: seq<u64>, p: nat, lo: nat)
    requires p < |ws| && lo <= 64 * p
    ensures Window(ws, ws[p], 64 * p, lo, 64 * p + 64)
  {
    forall i: nat | i < 64 ensures Bit(ws[p], i) == BitAt(ws, 64 * p + i) {
      assert (64 * p + i) / 64 == p && (64 * p + i) % 64 == i;
    }
  }

  lemma FirstWindow(ws: seq<u64>, p: nat, offset: nat)
    requires p < |ws| && p == offset / 64
    ensures Window(ws, AndWord(ws[p], FirstWordMask(offset)), 64 * p, offset, 64 * p + 64)
  {
    WordWindow(ws, p, 0);
    FirstWordMaskIs(offset);
    forall i: nat | i < 64
      ensures Bit(AndWord(ws[p], FirstWordMask(offset)), i) == (offset <= 64 * p + i && BitAt(ws, 64 * p + i))
    {
      AndBit(ws[p], FirstWordMask(offset), i);
    }
  }

  /** Lines 134-139: the word at hand is the last, with `size` bits of it in the bitmap. */
  method FoundFirst(ghost ws: seq<u64>, tmp: u64, base: nat, size: nat, ghost lo: nat) returns (r: nat)
    requires 0 < size < 64 && Window(ws, tmp, base, lo, base + 64)
    requires forall k: nat :: lo <= k < base ==> !BitAt(ws, k)
    ensures IsNext(ws, base + size, lo, r)
  {
    ShrDiv(ALL_ONES, 64 - size);
    var mask: u64 := Shr(ALL_ONES, 64 - size);
    var t := AndWord(tmp, mask);
    forall i: nat | i < 64 ensures Bit(t, i) == (lo <= base + i < base + size && BitAt(ws, base + i)) {
      AndBit(tmp, mask, i);
      ShiftedOnesBit(64 - size, i);
    }
    if t == 0 {
      WindowEmpty(ws, base, lo, base + size);
      return base + size;
    }
    r := FoundMiddle(ws, t, base, lo, base + size, base + size);
  }

  /** Lines 123-139: whole words from `base` on, then the last one. */
  method SearchWords(addr: array<u64>, from: nat, rest: nat, ghost lo: nat) returns (r: nat)
    requires lo <= 64 * from && 64 * from + rest <= 64 * addr.Length
    requires forall k: nat :: lo <= k < 64 * from ==> !BitAt(addr[..], k)
    ensures IsNext(addr[..], 64 * from + rest, lo, r)
  {
    var p, result, size := from, 64 * from, rest;
    while size / 64 != 0
      invariant 0 <= size && result == 64 * p && result + size == 64 * from + rest && lo <= result
      invariant forall k: nat :: lo <= k < result ==> !BitAt(addr[..], k)
      decreases size
    {
      var tmp := addr[p];
      WordWindow(addr[..], p, lo);
      if tmp != 0 {
        r := FoundMiddle(addr[..], tmp, result, lo, result + 64, result + size);
        return;
      }
      WindowEmpty(addr[..], result, lo, result + 64);
      p, result, size := p + 1, result + 64, size - 64;
    }
    if size == 0 { return result; }
    WordWindow(addr[..], p, lo);
    r := FoundFirst(addr[..], addr[p], result, size, lo);
  }

  /** `find_next_bit`. */
  method FindNextBit(addr: array<u64>, size: nat, offset: nat) returns (r: nat)
    requires size <= 64 * addr.Length
    ensures IsNext(addr[..], size, offset, r)
  {
    if offset >= size { return size; }
    var p := offset / 64;
    var result := 64 * p;
    var rest := size - result;
    if offset % 64 == 0 {
      r := SearchWords(addr, p, rest, offset);
    } else {
      var tmp := AndWord(addr[p], FirstWordMask(offset));
      FirstWindow(addr[..], p, offset);
      if rest < 64 {
        r := FoundFirst(addr[..], tmp, result, rest, offset);
      } else if tmp != 0 {
        r := FoundMiddle(addr[..], tmp, result, offset, result + 64, size);
      } else {
        WindowEmpty(addr[..], result, offset, result + 64);
        r := SearchWords(addr, p + 1, rest - 64, offset);
      }
    }
  }

  /** `find_first_bit`. */
  method FindFirstBit(addr: array<u64>, size: nat) returns (r: nat)
    requires size <= 64 * addr.Length
    ensures IsNext(addr[..], size, 0, r)
  {
    var idx := 0;
    while idx * 64 < size
      invariant 0 <= idx && idx * 64 < size + 64 && forall k: nat :: k < 64 * idx && k < size ==> !BitAt(addr[..], k)
    {
      WordWindow(addr[..], idx, 0);
      if addr[idx] != 0 {
        r := FoundMiddle(addr[..], addr[idx], 64 * idx, 0, 64 * idx + 64, 64 * idx + 64);
        if r > size { r := size; }
        return;
      }
      WindowEmpty(addr[..], 64 * idx, 0, 64 * idx + 64);
      idx := idx + 1;
    }
    r := size;
  }

  /** The positions are increasing and just the set bits below `size`. */
  ghost predicate Enumerates(ws: seq<u64>, size: nat, found: seq<nat>) {
    && (forall i, j :: 0 <= i < j < |found| ==> found[i] < found[j])
    && (forall k: nat :: k in found <==> k < size && BitAt(ws, k))
  }

  /** `for_each_set_bit`, with a body that records the position. */
  method ForEachSetBit(addr: array<u64>, size: nat) returns (found: seq<nat>)
    requires size <= 64 * addr.Length
    ensures Enumerates(addr[..], size, found)
  {
    found := [];
    var bit := FindFirstBit(addr, size);
    while bit < size
      invariant 0 <= bit && (bit == size || (bit < size && BitAt(addr[..], bit)))
      invariant Enumerates(addr[..], bit, found)
      decreases size - bit
    {
      ghost var before, at := found, bit;
      found := found + [bit];
      bit := FindNextBit(addr, size, bit + 1);
      NextFound(addr[..], at, bit, before);
    }
  }

  lemma NextFound(ws: seq<u64>, at: nat, next: nat, found: seq<nat>)
    requires Enumerates(ws, at, found) && BitAt(ws, at) && at < next
    requires forall k: nat :: at + 1 <= k < next ==> !BitAt(ws, k)
    ensures Enumerates(ws, next, found + [at])
  {
    var all := found + [at];
    forall i, j | 0 <= i < j < |all| ensures all[i] < all[j] {
      if j == |found| { assert found[i] in found; }
    }
  }

  // ----- counting

  /** The set bits below `n`, counted one by one. */
  ghost function Total(ws: seq<u64>, n: nat): nat {
    if n == 0 then 0 else Total(ws, n - 1) + (if BitAt(ws, n - 1) then 1 else 0)
  }

  lemma {:induction false} TotalIsCardinality(ws: seq<u64>, n: nat)
    ensures Total(ws, n) == |Members(ws, n)|
    decreases n
  {
    if n > 0 {
      TotalIsCardinality(ws, n - 1);
      if BitAt(ws, n - 1) {
        assert Members(ws, n) == Members(ws, n - 1) + {n - 1};
      } else {
        assert Members(ws, n) == Members(ws, n - 1);
      }
    }
  }

  lemma {:induction false} WordTotal(ws: seq<u64>, p: nat, n: nat)
    requires p < |ws| && n <= 64
    ensures Total(ws, 64 * p + n) == Total(ws, 64 * p) + Count(ws[p], n)
    decreases n
  {
    if n > 0 {
      WordTotal(ws, p, n - 1);
      assert (64 * p + n - 1) / 64 == p && (64 * p + n - 1) % 64 == n - 1;
    }
  }

  lemma {:induction false} MaskedCount(x: u64, mask: u64, hi: nat, n: nat)
    requires MaskIs(mask, 0, hi) && hi <= 64 && n <= 64
    ensures Count(AndWord(x, mask), n) == Count(x, if n < hi then n else hi)
    decreases n
  {
    if n > 0 {
      MaskedCount(x, mask, hi, n - 1);
      AndBit(x, mask, n - 1);
    }
  }

  lemma LastWord(ws: seq<u64>, k: nat, bits: nat, mask: u64)
    requires k == bits / 64 && k < |ws| && MaskIs(mask, 0, bits % 64)
    ensures Total(ws, bits) == Total(ws, 64 * k) + Count(AndWord(ws[k], mask), 64)
  {
    MaskedCount(ws[k], mask, bits % 64, 64);
    WordTotal(ws, k, bits % 64);
  }

  /** `__bitmap_weight`: the number of set bits below `bits`. */
  method BitmapWeight(bitmap: array<u64>, bits: nat) returns (w: nat)
    requires bits <= 64 * bitmap.Length
    ensures w == |Members(bitmap[..], bits)|
  {
    var k, lim := 0, bits / 64;
    w := 0;
    while k < lim
      invariant 0 <= k <= lim && w == Total(bitmap[..], 64 * k)
    {
      var h := Hweight64(bitmap[k]);
      WordTotal(bitmap[..], k, 64);
      w := w + h;
      k := k + 1;
    }
    if bits % 64 != 0 {
      LastWordMaskIs(bits);
      LastWord(bitmap[..], k, bits, LastWordMask(bits));
      var h := Hweight64(AndWord(bitmap[k], LastWordMask(bits)));
      w := w + h;
    }
    TotalIsCardinality(bitmap[..], bits);
  }
}
