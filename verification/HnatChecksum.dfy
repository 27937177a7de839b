/** The checksum base of a 6RD entry (config/mtk2/kernel/ra_nat.c: PpeGetChkBase): the IPv4 header checksum with
    total length and identification taken out, so that the hardware can complete it for every packet
    (section 3 of RFC 1624; section 3.1 of RFC 791 for the header). */
module HnatChecksum {

  type Word = w: nat | w < 0x10000

  /** An IPv4 header as 16-bit words, options included. */
  type Header = h: seq<Word> | 10 <= |h| <= 30 witness [0, 0, 0, 0, 0, 0, 0, 0, 0, 0]

  const TOT_LEN := 1
  const ID := 2
  const CHECK := 5

  function Complement(w: Word): Word { 0xFFFF - w }

  /** One folding step with the source's three-bit mask on the carries. */
  function FoldMasked(t: nat): nat { t / 0x10000 % 8 + t % 0x10000 }

  /** PpeGetChkBase. */
  function ChkBase(h: Header): Word {
    var t := Complement(h[CHECK]) + Complement(h[TOT_LEN]) + Complement(h[ID]);
    FoldMasked(FoldMasked(t)) % 0x10000
  }

  // ----- one's complement sums ------------------------------------------------------------------------------

  function Sum(h: seq<Word>): nat { if h == [] then 0 else Sum(h[..|h| - 1]) + h[|h| - 1] }

  /** Fold all carries back in. */
  function Fold(t: nat): (r: Word) {
    if t < 0x10000 then t else Fold(t / 0x10000 + t % 0x10000)
  }

  /** A header whose words add up to all ones is valid. */
  predicate ValidHeader(h: Header) { Fold(Sum(h)) == 0xFFFF }

  predicate Congruent(a: int, b: int) { (a - b) % 0xFFFF == 0 }

  lemma CongruentIf(a: int, b: int, k: int)
    requires a - b == 0xFFFF * k
    ensures Congruent(a, b)
  {
  }

  lemma CongruentAdd(a: int, b: int, c: int, d: int)
    requires Congruent(a, b) && Congruent(c, d)
    ensures Congruent(a + c, b + d) && Congruent(a - c, b - d)
  {
    var k, l := (a - b) / 0xFFFF, (c - d) / 0xFFFF;
    CongruentIf(a + c, b + d, k + l);
    CongruentIf(a - c, b - d, k - l);
  }

  lemma CongruentSame(a: int, k: int)
    ensures Congruent(a + 0xFFFF * k, a)
  {
    CongruentIf(a + 0xFFFF * k, a, k);
  }

  /** a is congruent to b, and b to c. */
  lemma CongruentChain(a: int, b: int, c: int)
    requires Congruent(a, b) && Congruent(b, c)
    ensures Congruent(a, c)
  {
    CongruentAdd(a, b, b, c);
    assert a + b - (b + c) == a - c;
  }

  lemma CarryIsOne(t: nat)
    ensures Congruent(t / 0x10000 + t % 0x10000, t)
  {
    assert t == 0x10000 * (t / 0x10000) + t % 0x10000;
    assert t - (t / 0x10000 + t % 0x10000) == 0xFFFF * (t / 0x10000);
  }

  lemma {:induction false} FoldMeans(t: nat)
    ensures Congruent(Fold(t), t) && (Fold(t) == 0 <==> t == 0)
  {
    var next := t / 0x10000 + t % 0x10000;
    if t < 0x10000 {
      CongruentIf(t, t, 0);
    } else {
      CarryIsOne(t);
      FoldMeans(next);
      hide Congruent;
      CongruentChain(Fold(next), next, t);
    }
  }

  /** A header that is not all zeros is valid exactly if its words add up to a multiple of 65535. */
  lemma ValidIff(h: Header)
    requires Sum(h) > 0
    ensures ValidHeader(h) <==> Congruent(Sum(h), 0)
  {
    FoldMeans(Sum(h));
  }

  lemma {:induction false} SumUpdate(h: seq<Word>, i: nat, w: Word)
    requires i < |h|
    ensures Sum(h[i := w]) == Sum(h) - h[i] + w
  {
    var last := |h| - 1;
    if i == last {
      assert h[i := w][..last] == h[..last];
    } else {
      SumUpdate(h[..last], i, w);
      assert h[i := w][..last] == h[..last][i := w];
    }
  }

  // ----- the base ---------------------------------------------------------------------------------------------

  /** Two folds always suffice, and neither the three-bit mask nor the last mask cuts anything off. */
  lemma TwoFoldsSuffice(h: Header)
    ensures var t := 0x2FFFD - (h[5] as int) - (h[1] as int) - (h[2] as int);
            t / 0x10000 < 8 && FoldMasked(t) / 0x10000 < 8 && FoldMasked(FoldMasked(t)) < 0x10000 &&
            ChkBase(h) == Fold(t)
  {
    var t := Complement(h[CHECK]) + Complement(h[TOT_LEN]) + Complement(h[ID]);
    assert t <= 0x2FFFD;
    assert FoldMasked(t) <= 0x10001;
    assert FoldMasked(t) == t / 0x10000 + t % 0x10000;
    if t >= 0x10000 { assert Fold(t) == Fold(FoldMasked(t)); }
  }

  /** The base of a valid header is the one's complement sum of its words other than words 1, 2 and 5: total length,
      identification and checksum. */
  lemma BaseIsRestOfSum(h: Header)
    requires ValidHeader(h)
    ensures Congruent(ChkBase(h), Sum(h[1 := 0][2 := 0][5 := 0]))
  {
    hide Sum, Fold, ChkBase, Congruent;
    var out := (h[CHECK] as int) + (h[TOT_LEN] as int) + (h[ID] as int);
    var t := Complement(h[CHECK]) + Complement(h[TOT_LEN]) + Complement(h[ID]);
    TwoFoldsSuffice(h);
    FoldMeans(t);
    ValidSum(h);
    CongruentSame(-out, 3);
    CongruentSame(-out, 0);
    CongruentAdd(0, Sum(h), -out, -out);
    CongruentChain(ChkBase(h), t, -out);
    CongruentChain(ChkBase(h), -out, Sum(h) - out);
    ThreeUpdates(h, 0, 0, 0);
  }

  lemma ValidSum(h: Header)
    requires ValidHeader(h)
    ensures Congruent(0, Sum(h))
  {
    FoldMeans(Sum(h));
    hide Sum, Fold, Congruent;
    CongruentFlip(0xFFFF, Sum(h));
  }

  /** 65535 stands for 0. */
  lemma CongruentFlip(a: int, b: int)
    requires Congruent(a, b) && a == 0xFFFF
    ensures Congruent(0, b)
  {
    var k := (a - b) / 0xFFFF;
    CongruentIf(0, b, k - 1);
  }

  lemma ThreeUpdates(h: Header, len: Word, id: Word, check: Word)
    ensures Sum(h[TOT_LEN := len][ID := id][CHECK := check]) ==
            Sum(h) - h[TOT_LEN] - h[ID] - h[CHECK] + len + id + check
  {
    SumUpdate(h, TOT_LEN, len);
    SumUpdate(h[TOT_LEN := len], ID, id);
    SumUpdate(h[TOT_LEN := len][ID := id], CHECK, check);
    hide Sum;
  }

  /** The hardware's part: any length and identification added to the base, folded and complemented, make a valid
      header out of a valid one. */
  lemma CompletionIsValid(h: Header, len: Word, id: Word)
    requires ValidHeader(h) && h[0] > 0
    ensures ValidHeader(h[1 := len][2 := id][5 := 0xFFFF - Fold(ChkBase(h) + len + id)])
  {
    hide Sum, Fold, ChkBase, Congruent;
    var given := ChkBase(h) + len + id;
    var check := Complement(Fold(given));
    var g := h[TOT_LEN := len][ID := id][CHECK := check];
    var rest := Sum(h) - h[TOT_LEN] - h[ID] - h[CHECK];
    ThreeUpdates(h, len, id, check);
    ThreeUpdates(h, 0, 0, 0);
    SumAtLeast(g, 0);
    ValidIff(g);
    assert Congruent(Sum(g), 0) by {
      BaseIsRestOfSum(h);
      FoldMeans(given);
      // Sum(g) == rest + len + id + 65535 - Fold(given), and Fold(given) is congruent to rest + len + id
      CongruentSame(len + id, 0);
      CongruentAdd(ChkBase(h), rest, len + id, len + id);
      CongruentChain(Fold(given), given, rest + len + id);
      CongruentSame(rest + len + id, 1);
      CongruentAdd(rest + len + id + 0xFFFF, rest + len + id, Fold(given), rest + len + id);
    }
  }

  lemma {:induction false} SumAtLeast(h: seq<Word>, i: nat)
    requires i < |h|
    ensures Sum(h) >= h[i]
  {
    if i < |h| - 1 { SumAtLeast(h[..|h| - 1], i); }
  }
}
