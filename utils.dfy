/**
 * The offer wire-format encoder of the marketplace test helpers: a structured
 * offer becomes the `(addr, nums, bdata)` triple taken by `verifySeal` and
 * `seal`, and the packed `(currencies, prices)` pair that buyer and seller
 * sign inside the `MarketplaceOffer` record.
 *
 * Strings are hex text as the helpers handle them, "0x"-prefixed where the
 * helpers prefix them.
 */
module Utils {
  import opened Wrappers
  import opened Hex

  /** Hex digits of a 65-byte signature, the width of `ZEROSIG`. */
  const SIG_HEX_LEN: nat := 130

  /** The all-zero placeholder signature. */
  const ZERO_SIG: string := "0x" + Repeat('0', SIG_HEX_LEN)

  /**
   * One payment leg. `mode` 1 is a plain ERC-20 transfer, 2 an ERC-2280
   * meta-transfer whose authorization is `sig`; any other mode is carried in
   * the leg count but not encoded. A leg without a `sig` property has `sig == ""`.
   */
  datatype Payment = Payment(mode: int, address: string, price: nat, sig: string)

  datatype Offer = Offer(
    buyer: string,
    seller: string,
    ticket: nat,
    nonce: nat,
    buyerMode: int,
    sellerMode: int,
    payments: seq<Payment>,
    buyerSignature: string,
    sellerSignature: string)

  /** The three arguments of `verifySeal` / `seal`. */
  datatype Arguments = Arguments(addr: seq<string>, nums: seq<int>, bdata: string)

  /** The two packed byte strings of the signed `MarketplaceOffer` record. */
  datatype Packed = Packed(currencies: string, prices: string)

  /** JavaScript's `s.slice(start)` for a non-negative start. */
  function SliceFrom(s: string, start: nat): string
  {
    if start <= |s| then s[start..] else ""
  }

  /**
   * `encodeU256`: the 64-digit, zero-padded, big-endian hex word of n.
   * `None` is the RangeError that `"0".repeat` throws when n needs more than
   * 64 digits.
   */
  function EncodeU256(n: nat): (r: Option<string>)
    ensures r.Some? <==> n < U256_BOUND
    ensures r.Some? ==> |r.value| == 64 && IsHex(r.value) && HexValue(r.value) == n
  {
    var hexed := ToHexString(n)[2..];
    NatToHexFits(n, 64);
    Pow16At64();
    if |hexed| <= 64 then
      LeadingZeros(64 - |hexed|, hexed);
      Some(Repeat('0', 64 - |hexed|) + hexed)
    else
      None
  }

  /**
   * The word does not depend on how the digits of n were rendered: padding
   * any lower-case hex rendering of n of at most 64 digits with leading
   * zeros gives the same word.
   */
  lemma EncodeU256LeftPads(n: nat, h: string)
    requires IsHex(h) && |h| <= 64 && HexValue(h) == n
    ensures EncodeU256(n) == Some(Repeat('0', 64 - |h|) + h)
  {
    HexValueBound(h);
    Pow16At64();
    assert Pow16(|h|) <= Pow16(64) by { Pow16Add(|h|, 64 - |h|); }
    LeadingZeros(64 - |h|, h);
    HexValueInjective(EncodeU256(n).value, Repeat('0', 64 - |h|) + h);
  }

  /** Distinct numbers in range have distinct words. */
  lemma EncodeU256Injective(a: nat, b: nat)
    requires EncodeU256(a).Some? && EncodeU256(a) == EncodeU256(b)
    ensures a == b
  {
  }

  /** The modes that `getArguments` encodes. */
  predicate IsLeg(p: Payment)
  {
    p.mode == 1 || p.mode == 2
  }

  /** What one payment appends to `nums`. */
  function LegNums(p: Payment): seq<int>
  {
    if IsLeg(p) then [p.mode, p.price] else []
  }

  /** What one payment appends to `addr`. */
  function LegAddr(p: Payment): seq<string>
  {
    if IsLeg(p) then [p.address] else []
  }

  /** What one payment appends to `bdata`. */
  function LegPayload(p: Payment): string
  {
    if p.mode == 2 then SliceFrom(p.sig, 2) else ""
  }

  /** What one payment appends to `currencies`. */
  function CurrencyPart(p: Payment): string
  {
    SliceFrom(p.address, 2)
  }

  /** What one payment appends to `prices` (meaningful when its price is in range). */
  function PriceWord(p: Payment): string
  {
    match EncodeU256(p.price)
    case Some(w) => w
    case None => ""
  }

  /** The concatenation of f over the payments, in order. */
  function Flatten<T>(ps: seq<Payment>, f: Payment -> seq<T>): seq<T>
  {
    if |ps| == 0 then [] else f(ps[0]) + Flatten(ps[1..], f)
  }

  lemma {:induction false} FlattenAppend<T>(a: seq<Payment>, b: seq<Payment>, f: Payment -> seq<T>)
    ensures Flatten(a + b, f) == Flatten(a, f) + Flatten(b, f)
  {
    if |a| > 0 {
      assert (a + b)[1..] == a[1..] + b;
      FlattenAppend(a[1..], b, f);
    } else {
      assert a + b == b;
    }
  }

  /** One more payment appends its own part. */
  lemma FlattenSnoc<T>(ps: seq<Payment>, i: nat, f: Payment -> seq<T>)
    requires i < |ps|
    ensures Flatten(ps[..i + 1], f) == Flatten(ps[..i], f) + f(ps[i])
  {
    assert ps[..i + 1] == ps[..i] + [ps[i]];
    FlattenAppend(ps[..i], [ps[i]], f);
    assert Flatten([ps[i]], f) == f(ps[i]) + Flatten([ps[i]][1..], f);
  }

  /**
   * The arguments `getArguments` lays out for the header of o (its parties,
   * ticket, nonce, modes, leg count and signatures) followed by the given legs.
   */
  function ArgumentsWith(o: Offer, legs: seq<Payment>): Arguments
  {
    Arguments(
      [o.buyer, o.seller] + Flatten(legs, LegAddr),
      [o.ticket, o.nonce, o.buyerMode, o.sellerMode, |o.payments|] + Flatten(legs, LegNums),
      "0x" + SliceFrom(o.buyerSignature, 2) + SliceFrom(o.sellerSignature, 2) + Flatten(legs, LegPayload))
  }

  /** The arguments `getArguments` lays out for an offer. */
  function ArgumentsOf(o: Offer): Arguments
  {
    ArgumentsWith(o, o.payments)
  }

  /** One more leg appends its own parts to each of the three arguments. */
  lemma ArgumentsSnoc(o: Offer, ps: seq<Payment>, i: nat)
    requires i < |ps|
    ensures ArgumentsWith(o, ps[..i + 1]) == Arguments(
      ArgumentsWith(o, ps[..i]).addr + LegAddr(ps[i]),
      ArgumentsWith(o, ps[..i]).nums + LegNums(ps[i]),
      ArgumentsWith(o, ps[..i]).bdata + LegPayload(ps[i]))
  {
    FlattenSnoc(ps, i, LegAddr);
    FlattenSnoc(ps, i, LegNums);
    FlattenSnoc(ps, i, LegPayload);
  }

  /** Every price fits a `uint256`, so that `encodeU256` does not throw. */
  predicate PricesInRange(ps: seq<Payment>)
  {
    forall i :: 0 <= i < |ps| ==> ps[i].price < U256_BOUND
  }

  /** The strings `getCurrencies` packs for a list of payments. */
  function PackedOf(ps: seq<Payment>): Packed
  {
    Packed("0x" + Flatten(ps, CurrencyPart), "0x" + Flatten(ps, PriceWord))
  }

  /** One more payment appends its own parts to both packed strings. */
  lemma PackedSnoc(ps: seq<Payment>, i: nat)
    requires i < |ps|
    ensures PackedOf(ps[..i + 1]).currencies == PackedOf(ps[..i]).currencies + CurrencyPart(ps[i])
    ensures PackedOf(ps[..i + 1]).prices == PackedOf(ps[..i]).prices + PriceWord(ps[i])
  {
    var c, w := Flatten(ps[..i], CurrencyPart), Flatten(ps[..i], PriceWord);
    FlattenSnoc(ps, i, CurrencyPart);
    FlattenSnoc(ps, i, PriceWord);
    assert "0x" + (c + CurrencyPart(ps[i])) == ("0x" + c) + CurrencyPart(ps[i]);
    assert "0x" + (w + PriceWord(ps[i])) == ("0x" + w) + PriceWord(ps[i]);
  }

  /** `getArguments` */
  method GetArguments(offer: Offer) returns (args: Arguments)
    ensures args == ArgumentsOf(offer)
  {
    var addr: seq<string> := [];
    var nums: seq<int> := [];
    var bdata := "0x";

    nums := nums + [offer.ticket];
    nums := nums + [offer.nonce];
    nums := nums + [offer.buyerMode];
    nums := nums + [offer.sellerMode];
    nums := nums + [|offer.payments|];
    addr := addr + [offer.buyer];
    addr := addr + [offer.seller];

    bdata := bdata + SliceFrom(offer.buyerSignature, 2);
    bdata := bdata + SliceFrom(offer.sellerSignature, 2);

    var ps := offer.payments;
    assert ps[..0] == [];
    for i := 0 to |ps|
      invariant Arguments(addr, nums, bdata) == ArgumentsWith(offer, ps[..i])
    {
      var payment := ps[i];
      if payment.mode == 1 {
        nums := nums + [payment.mode];
        nums := nums + [payment.price];
        addr := addr + [payment.address];
      } else if payment.mode == 2 {
        nums := nums + [payment.mode];
        nums := nums + [payment.price];
        addr := addr + [payment.address];
        bdata := bdata + SliceFrom(payment.sig, 2);
      }
      ArgumentsSnoc(offer, ps, i);
    }
    assert ps[..|ps|] == ps;
    args := Arguments(addr, nums, bdata);
  }

  /** `getCurrencies`; `None` where `encodeU256` throws on a price of 2^256 or more. */
  method GetCurrencies(offer: Offer) returns (r: Option<Packed>)
    ensures r.Some? <==> PricesInRange(offer.payments)
    ensures r.Some? ==> r.value == PackedOf(offer.payments)
  {
    var currencies := "0x";
    var prices := "0x";

    var ps := offer.payments;
    assert ps[..0] == [];
    for i := 0 to |ps|
      invariant PricesInRange(ps[..i])
      invariant Packed(currencies, prices) == PackedOf(ps[..i])
    {
      var payment := ps[i];
      currencies := currencies + SliceFrom(payment.address, 2);
      var word := EncodeU256(payment.price);
      if word.None? {
        return None;
      }
      prices := prices + word.value;
      PackedSnoc(ps, i);
      assert ps[..i + 1] == ps[..i] + [payment];
    }
    assert ps[..|ps|] == ps;
    r := Some(Packed(currencies, prices));
  }
}
