/** Fixed-width lowercase hexadecimal numerals, and the prefixes a sharded traversal lists by. */
module HexPrefixes {

  type Hash = string

  const DIGITS := "0123456789abcdef"

  predicate IsHex(s: string) {
    forall c :: c in s ==> c in DIGITS
  }

  function DigitValue(c: char): (v: nat)
    requires c in DIGITS
    ensures v < 16 && DIGITS[v] == c
  {
    if c <= '9' then (c - '0') as nat else (c - 'a') as nat + 10
  }

  function Pow16(n: nat): (r: nat)
    ensures r >= 1
  {
    if n == 0 then 1 else 16 * Pow16(n - 1)
  }

  /** The last `width` hexadecimal digits of `i`, zero-padded. */
  function ToHex(i: nat, width: nat): (s: string)
    ensures |s| == width && IsHex(s)
  {
    if width == 0 then "" else ToHex(i / 16, width - 1) + [DIGITS[i % 16]]
  }

  function FromHex(s: string): (i: nat)
    requires IsHex(s)
  {
    if s == "" then 0 else 16 * FromHex(s[..|s| - 1]) + DigitValue(s[|s| - 1])
  }

  lemma {:induction false} FromHexBound(s: string)
    requires IsHex(s)
    ensures FromHex(s) < Pow16(|s|)
  {
    if s != "" {
      FromHexBound(s[..|s| - 1]);
    }
  }

  lemma ValueOfDigit(k: nat)
    requires k < 16
    ensures DigitValue(DIGITS[k]) == k
  {
    var v := DigitValue(DIGITS[k]);
    assert DIGITS[v] == DIGITS[k];
  }

  lemma {:induction false} FromToHex(i: nat, width: nat)
    requires i < Pow16(width)
    ensures FromHex(ToHex(i, width)) == i
  {
    if width > 0 {
      FromToHex(i / 16, width - 1);
      ValueOfDigit(i % 16);
      var s := ToHex(i, width);
      assert s[..|s| - 1] == ToHex(i / 16, width - 1) && s[|s| - 1] == DIGITS[i % 16];
    }
  }

  lemma {:induction false} ToFromHex(s: string)
    requires IsHex(s)
    ensures ToHex(FromHex(s), |s|) == s
  {
    if s != "" {
      var init := s[..|s| - 1];
      ToFromHex(init);
      assert FromHex(s) / 16 == FromHex(init) && FromHex(s) % 16 == DigitValue(s[|s| - 1]);
      assert s == init + [s[|s| - 1]];
    }
  }

  lemma ShiftSum(x: nat, p: nat, y: nat, sum: nat)
    requires sum == x * p + y
    ensures 16 * sum == x * (16 * p) + 16 * y
  {
  }

  lemma FromHexSnoc(s: string, c: char)
    requires IsHex(s) && c in DIGITS
    ensures IsHex(s + [c]) && FromHex(s + [c]) == 16 * FromHex(s) + DigitValue(c)
  {
    assert (s + [c])[..|s|] == s;
  }

  lemma LastApart(a: string, b: string)
    requires b != ""
    ensures var n := |b| - 1; b == b[..n] + [b[n]] && a + b == (a + b[..n]) + [b[n]]
  {
  }

  lemma {:induction false} FromHexConcat(a: string, b: string)
    requires IsHex(a) && IsHex(b)
    ensures IsHex(a + b) && FromHex(a + b) == FromHex(a) * Pow16(|b|) + FromHex(b)
  {
    if b == "" {
      assert a + b == a;
    } else {
      var n := |b| - 1;
      var init := b[..n];
      FromHexConcat(a, init);
      FromHexSnoc(a + init, b[n]);
      FromHexSnoc(init, b[n]);
      LastApart(a, b);
      ShiftSum(FromHex(a), Pow16(n), FromHex(init), FromHex(a + init));
    }
  }

  /** `h` starts with the numeral of `i` exactly when its first digits have that value. */
  lemma PrefixIsValue(h: Hash, i: nat, width: nat)
    requires width <= |h| && IsHex(h[..width]) && i < Pow16(width)
    ensures ToHex(i, width) <= h <==> FromHex(h[..width]) == i
  {
    FromToHex(i, width);
    ToFromHex(h[..width]);
    if ToHex(i, width) <= h {
      assert h[..width] == ToHex(i, width);
    }
    if FromHex(h[..width]) == i {
      assert h[..width] == ToHex(i, width);
    }
  }

  function Zeros(n: nat): string {
    ToHex(0, n)
  }

  /** The prefixes listed after the sample: 01 to ff, and for a sample prefix longer than two
      digits the rest of what starts with 00. */
  function TraversePrefixes(n: nat): seq<string>
    requires n >= 2
  {
    seq(255, i requires 0 <= i < 255 => ToHex(i + 1, 2))
    + (if n > 2 then seq(Pow16(n - 2) - 1, i requires 0 <= i < Pow16(n - 2) - 1 => ToHex(i + 1, n)) else [])
  }

  function AllPrefixes(n: nat): seq<string>
    requires n >= 2
  {
    [Zeros(n)] + TraversePrefixes(n)
  }

  /** Where `h` is listed. */
  function PrefixIndex(h: Hash, n: nat): nat
    requires n >= 2 && |h| >= n && IsHex(h[..n])
  {
    assert IsHex(h[..2]) by { assert forall c :: c in h[..2] ==> c in h[..n]; }
    if FromHex(h[..2]) > 0 then FromHex(h[..2])
    else if FromHex(h[..n]) == 0 then 0
    else 255 + FromHex(h[..n])
  }

  lemma LeadingDigits(h: Hash, n: nat)
    requires n >= 2 && |h| >= n && IsHex(h[..n])
    ensures IsHex(h[..2]) && IsHex(h[2..n]) && FromHex(h[2..n]) < Pow16(n - 2)
    ensures FromHex(h[..n]) == FromHex(h[..2]) * Pow16(n - 2) + FromHex(h[2..n])
    ensures FromHex(h[..2]) < 256
  {
    assert forall c :: c in h[..2] ==> c in h[..n];
    assert forall c :: c in h[2..n] ==> c in h[..n];
    FromHexConcat(h[..2], h[2..n]);
    assert h[..2] + h[2..n] == h[..n];
    FromHexBound(h[2..n]);
    FromHexBound(h[..2]);
    assert Pow16(2) == 16 * Pow16(1) == 256;
  }

  lemma SmallNumeral(i: nat, n: nat)
    requires n >= 2 && i < Pow16(n - 2)
    ensures i < Pow16(n)
  {
  }

  lemma AtLeast(x: nat, p: nat)
    requires x > 0
    ensures x * p >= p
  {
  }

  /** What the leading digits say about the value: a nonzero first pair makes it large. */
  lemma ValueOfLead(h: Hash, n: nat)
    requires n >= 2 && |h| >= n && IsHex(h[..n])
    ensures IsHex(h[..2]) && FromHex(h[..2]) < 256
    ensures FromHex(h[..2]) > 0 <==> FromHex(h[..n]) >= Pow16(n - 2)
  {
    LeadingDigits(h, n);
    if FromHex(h[..2]) > 0 {
      AtLeast(FromHex(h[..2]), Pow16(n - 2));
    }
  }

  lemma PrefixCount(n: nat)
    requires n >= 2
    ensures |AllPrefixes(n)| == 255 + Pow16(n - 2)
  {
  }

  lemma PrefixAt(n: nat, k: nat)
    requires n >= 2 && k < |AllPrefixes(n)|
    ensures AllPrefixes(n)[k] ==
      if k == 0 then ToHex(0, n) else if k <= 255 then ToHex(k, 2) else ToHex(k - 255, n)
  {
  }

  lemma ZeroPrefix(h: Hash, n: nat)
    requires n >= 2 && |h| >= n && IsHex(h[..n])
    ensures Zeros(n) <= h <==> PrefixIndex(h, n) == 0
  {
    ValueOfLead(h, n);
    PrefixIsValue(h, 0, n);
  }

  lemma PairPrefix(h: Hash, n: nat, k: nat)
    requires n >= 2 && |h| >= n && IsHex(h[..n]) && 1 <= k <= 255
    ensures ToHex(k, 2) <= h <==> PrefixIndex(h, n) == k
  {
    ValueOfLead(h, n);
    assert Pow16(2) == 16 * Pow16(1) == 256;
    PrefixIsValue(h, k, 2);
  }

  lemma LongPrefix(h: Hash, n: nat, i: nat)
    requires n >= 2 && |h| >= n && IsHex(h[..n]) && 1 <= i < Pow16(n - 2)
    ensures ToHex(i, n) <= h <==> PrefixIndex(h, n) == 255 + i
  {
    ValueOfLead(h, n);
    SmallNumeral(i, n);
    PrefixIsValue(h, i, n);
  }

  /** What is listed by the prefix at `k`. */
  lemma PrefixMeets(h: Hash, n: nat, k: nat, prefix: string)
    requires n >= 2 && |h| >= n && IsHex(h[..n]) && k < 255 + Pow16(n - 2)
    requires prefix == if k == 0 then Zeros(n) else if k <= 255 then ToHex(k, 2) else ToHex(k - 255, n)
    ensures prefix <= h <==> k == PrefixIndex(h, n)
  {
    if k == 0 {
      ZeroPrefix(h, n);
    } else if k <= 255 {
      PairPrefix(h, n, k);
    } else {
      LongPrefix(h, n, k - 255);
    }
  }

  lemma IndexFits(h: Hash, n: nat)
    requires n >= 2 && |h| >= n && IsHex(h[..n])
    ensures PrefixIndex(h, n) < 255 + Pow16(n - 2)
  {
    ValueOfLead(h, n);
  }

  /** The prefixes partition the hashes: each one starts with exactly one of them. */
  lemma PrefixesPartition(h: Hash, n: nat, k: nat)
    requires n >= 2 && |h| >= n && IsHex(h[..n])
    requires k < |AllPrefixes(n)|
    ensures PrefixIndex(h, n) < |AllPrefixes(n)|
    ensures AllPrefixes(n)[k] <= h <==> k == PrefixIndex(h, n)
  {
    IndexFits(h, n);
    PrefixCount(n);
    PrefixAt(n, k);
    PrefixMeets(h, n, k, AllPrefixes(n)[k]);
  }
}
