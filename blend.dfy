/** The per-pixel "A over B" blend of superimpose_image, in the integer
    arithmetic the code actually uses: every quantity is a 64-bit size_t,
    alpha is normalised by integer division by 255, and the size_t result is
    narrowed to an 8-bit channel by the rgb8 pixel constructor. */
module Blend {
  import opened Pixels

  /** size_t is 64 bits wide; unsigned arithmetic wraps modulo 2^64. */
  const SizeModulus: int := 0x1_0000_0000_0000_0000

  type SizeT = x: int | 0 <= x < SizeModulus

  /** The size_t value of an unsigned operation whose exact result is `x`. */
  function Wrap(x: int): SizeT
  {
    x % SizeModulus
  }

  /** Alpha normalisation `A / 255` in integer division: the result is
      0 or 1, and 1 exactly for a fully opaque pixel. */
  function NormalizedAlpha(a: Channel): (n: SizeT)
    ensures n == 0 || n == 1
    ensures n == 1 <==> a == OpaqueAlpha
  {
    a / 255
  }

  /** `1 - alpha` in size_t. */
  function Complement(alpha: SizeT): SizeT
  {
    Wrap(1 - alpha)
  }

  /** `C_a * alpha_a + C_b * alpha_b * (1 - alpha_a)`, each operation in size_t. */
  function Numerator(ca: SizeT, cb: SizeT, alphaA: SizeT, alphaB: SizeT): SizeT
  {
    Wrap(Wrap(ca * alphaA) + Wrap(Wrap(cb * alphaB) * Complement(alphaA)))
  }

  /** `alpha_a + alpha_b * (1 - alpha_a)`, each operation in size_t. */
  function Denominator(alphaA: SizeT, alphaB: SizeT): SizeT
  {
    Wrap(alphaA + Wrap(alphaB * Complement(alphaA)))
  }

  /** With alpha_a = 1 the background term is multiplied by `1 - 1 = 0`:
      the numerator is the foreground channel and the denominator is 1,
      whatever the background channel and alpha_b are. */
  lemma OpaqueForegroundTerms(ca: SizeT, cb: SizeT, alphaB: SizeT)
    ensures Numerator(ca, cb, 1, alphaB) == ca
    ensures Denominator(1, alphaB) == 1
  {
    assert Complement(1) == 0;
    assert Wrap(Wrap(cb * alphaB) * 0) == 0;
  }

  /** With alpha_a = 0 and alpha_b = 1 only the background term remains: the
      numerator is the background channel and the denominator is 1. */
  lemma TransparentOverOpaqueTerms(ca: SizeT, cb: SizeT)
    ensures Numerator(ca, cb, 0, 1) == cb
    ensures Denominator(0, 1) == 1
  {
    assert Complement(0) == 1;
    assert Wrap(ca * 0) == 0;
    assert Wrap(cb * 1) == cb;
  }

  /** Two fully transparent pixels give a zero denominator. */
  lemma BothTransparentTerms()
    ensures Denominator(0, 0) == 0
  {
    assert Complement(0) == 1;
  }

  /** The AoverB lambda, numerator over denominator in size_t. The code has
      no fallback for a zero denominator, so callers must rule it out. An
      opaque foreground (alpha_a = 1) yields the foreground channel whatever
      the background; a transparent foreground over an opaque background
      yields the background channel. (The two selecting branches evaluate the
      same quotient with the alphas they have established written as
      literals.) */
  function AoverB(ca: SizeT, cb: SizeT, alphaA: SizeT, alphaB: SizeT): (r: SizeT)
    requires Denominator(alphaA, alphaB) != 0
    ensures alphaA == 1 ==> r == ca
    ensures alphaA == 0 && alphaB == 1 ==> r == cb
  {
    if alphaA == 1 then
      OpaqueForegroundTerms(ca, cb, alphaB);
      Numerator(ca, cb, 1, alphaB) / Denominator(1, alphaB)
    else if alphaA == 0 && alphaB == 1 then
      TransparentOverOpaqueTerms(ca, cb);
      Numerator(ca, cb, 0, 1) / Denominator(0, 1)
    else
      QuotientFits(Numerator(ca, cb, alphaA, alphaB), Denominator(alphaA, alphaB));
      Numerator(ca, cb, alphaA, alphaB) / Denominator(alphaA, alphaB)
  }

  /** Well-typedness helper for AoverB: unsigned division of a size_t by a
      non-zero size_t gives a size_t no larger than the dividend. */
  lemma QuotientFits(n: SizeT, d: SizeT)
    requires d != 0
    ensures 0 <= n / d <= n
  {
    var q := n / d;
    ProductAtLeastFactor(d, q);
    assert d * q <= n;
  }

  lemma {:induction false} ProductAtLeastFactor(d: nat, q: nat)
    requires d >= 1
    ensures d * q >= q
  {
    if d > 1 {
      ProductAtLeastFactor(d - 1, q);
      assert d * q == (d - 1) * q + q;
    }
  }

  /** A normalised alpha is at most 1, so `1 - alpha_a` never wraps; a value
      of 2 would wrap to the largest size_t. */
  lemma ComplementNoUnderflow(a: Channel)
    ensures Complement(NormalizedAlpha(a)) == 1 - NormalizedAlpha(a)
    ensures Complement(2) == SizeModulus - 1
  {
  }

  /** For normalised alphas the denominator is 0 exactly when both are 0. */
  lemma DenominatorZeroIff(alphaA: SizeT, alphaB: SizeT)
    requires alphaA <= 1 && alphaB <= 1
    ensures Denominator(alphaA, alphaB) == 0 <==> alphaA == 0 && alphaB == 0
  {
    if alphaA == 1 {
      OpaqueForegroundTerms(0, 0, alphaB);
      assert Denominator(alphaA, alphaB) == 1;
    } else if alphaB == 1 {
      assert alphaA == 0;
      TransparentOverOpaqueTerms(0, 0);
      assert Denominator(alphaA, alphaB) == 1;
    } else {
      assert alphaA == 0 && alphaB == 0;
      BothTransparentTerms();
      assert Denominator(alphaA, alphaB) == 0;
    }
  }

  /** On 8-bit channels and normalised alphas no size_t operation overflows
      or wraps: the numerator stays below 256, the denominator is 1, AoverB
      equals the same formula evaluated on unbounded integers, and the
      result fits a channel. */
  lemma AoverBExact(ca: SizeT, cb: SizeT, alphaA: SizeT, alphaB: SizeT)
    requires ca < 256 && cb < 256 && alphaA <= 1 && alphaB <= 1
    requires alphaA == 1 || alphaB == 1
    ensures Numerator(ca, cb, alphaA, alphaB) < 256 && Denominator(alphaA, alphaB) == 1
    ensures AoverB(ca, cb, alphaA, alphaB) == ExactOver(ca, cb, alphaA, alphaB)
    ensures AoverB(ca, cb, alphaA, alphaB) < 256
  {
    if alphaA == 1 {
      assert Numerator(ca, cb, alphaA, alphaB) == ca && Denominator(alphaA, alphaB) == 1 by {
        OpaqueForegroundTerms(ca, cb, alphaB);
      }
      assert ExactOver(ca, cb, alphaA, alphaB) == ca by {
        ExactOverSelects(ca, cb, alphaA, alphaB);
      }
    } else {
      assert alphaA == 0 && alphaB == 1;
      assert Numerator(ca, cb, alphaA, alphaB) == cb && Denominator(alphaA, alphaB) == 1 by {
        TransparentOverOpaqueTerms(ca, cb);
      }
      assert ExactOver(ca, cb, alphaA, alphaB) == cb by {
        ExactOverSelects(ca, cb, alphaA, alphaB);
      }
    }
  }

  /** The AoverB formula on unbounded integers, as the blend would read
      without size_t arithmetic. */
  function ExactOver(ca: int, cb: int, alphaA: int, alphaB: int): int
    requires 0 <= alphaA <= 1 && 0 <= alphaB <= 1
    requires alphaA == 1 || alphaB == 1
  {
    (ca * alphaA + cb * alphaB * (1 - alphaA)) / (alphaA + alphaB * (1 - alphaA))
  }

  /** On alphas 0 and 1 (not both 0) the exact formula selects a channel. */
  lemma ExactOverSelects(ca: int, cb: int, alphaA: int, alphaB: int)
    requires 0 <= alphaA <= 1 && 0 <= alphaB <= 1
    requires alphaA == 1 || alphaB == 1
    ensures alphaA + alphaB * (1 - alphaA) == 1
    ensures ExactOver(ca, cb, alphaA, alphaB) == if alphaA == 1 then ca else cb
  {
    if alphaA == 1 {
      assert ca * alphaA + cb * alphaB * (1 - alphaA) == ca;
    } else {
      assert alphaA == 0 && alphaB == 1;
    }
  }

  /** The narrowing of a size_t to an 8-bit channel done when the rgb8 pixel
      is built: values that fit are kept. */
  function Narrow(x: SizeT): (c: Channel)
    ensures x < 256 ==> c == x
  {
    x % 256
  }

  /** On two alpha channels, the normalised divisor is non-zero exactly
      when one of them is 255. */
  lemma AlphaDivisorIff(alphaA: Channel, alphaB: Channel)
    ensures Denominator(NormalizedAlpha(alphaA), NormalizedAlpha(alphaB)) != 0
        <==> alphaA == OpaqueAlpha || alphaB == OpaqueAlpha
  {
    var nA, nB := NormalizedAlpha(alphaA), NormalizedAlpha(alphaB);
    DenominatorZeroIff(nA, nB);
    if alphaA == OpaqueAlpha {
      assert nA == 1;
    } else if alphaB == OpaqueAlpha {
      assert nA == 0 && nB == 1;
    } else {
      assert nA == 0 && nB == 0;
    }
  }

  /** The per-pixel functor is defined: its division has a non-zero divisor,
      which is the case exactly when the foreground or the background pixel
      is fully opaque; two translucent pixels divide by zero. */
  predicate Compositable(fg: Rgba8, bg: Rgba8)
    ensures Compositable(fg, bg) <==> fg.a == OpaqueAlpha || bg.a == OpaqueAlpha
  {
    AlphaDivisorIff(fg.a, bg.a);
    Denominator(NormalizedAlpha(fg.a), NormalizedAlpha(bg.a)) != 0
  }

  /** One output channel of the functor: the foreground channel `ca` when
      the foreground alpha is 255, otherwise the background channel `cb`
      (defined only when the background alpha is then 255). */
  lemma ChannelSelect(ca: Channel, cb: Channel, alphaA: Channel, alphaB: Channel)
    requires alphaA == OpaqueAlpha || alphaB == OpaqueAlpha
    ensures Denominator(NormalizedAlpha(alphaA), NormalizedAlpha(alphaB)) != 0
    ensures Narrow(AoverB(ca, cb, NormalizedAlpha(alphaA), NormalizedAlpha(alphaB)))
         == if alphaA == OpaqueAlpha then ca else cb
  {
    AlphaDivisorIff(alphaA, alphaB);
  }

  /** The per-pixel functor of superimpose_image: foreground `fg` over
      background `bg`, channel by channel (red from red, green from green,
      blue from blue). The blend is binary, not fractional: a fully opaque
      foreground wins outright, anything less shows the background. */
  function Composite(fg: Rgba8, bg: Rgba8): (p: Rgb8)
    requires Compositable(fg, bg)
    ensures fg.a == OpaqueAlpha ==> p == ColorOf(fg)
    ensures fg.a != OpaqueAlpha ==> p == ColorOf(bg)
  {
    ChannelSelect(fg.r, bg.r, fg.a, bg.a);
    ChannelSelect(fg.g, bg.g, fg.a, bg.a);
    ChannelSelect(fg.b, bg.b, fg.a, bg.a);
    var alphaA, alphaB := NormalizedAlpha(fg.a), NormalizedAlpha(bg.a);
    Rgb8(Narrow(AoverB(fg.r, bg.r, alphaA, alphaB)),
         Narrow(AoverB(fg.g, bg.g, alphaA, alphaB)),
         Narrow(AoverB(fg.b, bg.b, alphaA, alphaB)))
  }

  /** Over a background converted from RGB (hence opaque) the functor is
      always defined, and a pixel shows the foreground colour exactly when the
      foreground is fully opaque, the background colour otherwise. */
  lemma CompositeOverOpaque(fg: Rgba8, bg: Rgb8)
    ensures Compositable(fg, RgbToRgba(bg))
    ensures Composite(fg, RgbToRgba(bg)) == if fg.a == OpaqueAlpha then ColorOf(fg) else bg
  {
  }
}
