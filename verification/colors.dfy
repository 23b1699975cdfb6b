/** Colours and the additive, saturating blend used to mix the colours of
    every seed a node depends on. */
module Colors {
  import opened Wrappers

  /** A colour channel, 0 to 255. */
  type Channel = c: int | 0 <= c <= 255

  datatype Rgb = Rgb(red: Channel, green: Channel, blue: Channel)

  /** `x` is `min(255, a + b)`: the sum, unless the sum passes 255. */
  predicate SaturatedSum(x: int, a: int, b: int) {
    x <= a + b && (x == a + b || x == 255)
  }

  /** `qMin(255, a + b)`. */
  function SaturatingAdd(a: Channel, b: Channel): (r: Channel)
    ensures SaturatedSum(r, a, b)
  {
    if a + b < 255 then a + b else 255
  }

  /** The `blend` lambda. `None` is the invalid colour a node starts with:
      blending into it yields the seed; otherwise every channel is the
      saturated sum of the two. */
  function Blend(acc: Option<Rgb>, b: Rgb): (r: Option<Rgb>)
    ensures r.Some?
    ensures acc.None? ==> r.value == b
    ensures acc.Some? ==>
              && SaturatedSum(r.value.red, acc.value.red, b.red)
              && SaturatedSum(r.value.green, acc.value.green, b.green)
              && SaturatedSum(r.value.blue, acc.value.blue, b.blue)
  {
    match acc
    case None => Some(b)
    case Some(a) =>
      Some(Rgb(SaturatingAdd(a.red, b.red), SaturatingAdd(a.green, b.green), SaturatingAdd(a.blue, b.blue)))
  }

  /** Saturating addition of channels is associative and commutative. */
  lemma SaturatingAddSwap(c: Channel, a: Channel, b: Channel)
    ensures SaturatingAdd(SaturatingAdd(c, a), b) == SaturatingAdd(SaturatingAdd(c, b), a)
  {
  }

  /** Blending two colours in either order gives the same colour. */
  lemma BlendSwap(acc: Option<Rgb>, a: Rgb, b: Rgb)
    ensures Blend(Blend(acc, a), b) == Blend(Blend(acc, b), a)
  {
  }
}
