/**
 * Where each part of an offer lands in the arguments `getArguments` builds
 * and in the packed strings `getCurrencies` builds.
 */
module Layout {
  import opened Hex
  import opened Utils

  /** How many payments carry an encoded mode (1 or 2). */
  function LegCount(ps: seq<Payment>): nat
  {
    if |ps| == 0 then 0 else (if IsLeg(ps[0]) then 1 else 0) + LegCount(ps[1..])
  }

  predicate AllLegs(ps: seq<Payment>)
  {
    forall i :: 0 <= i < |ps| ==> IsLeg(ps[i])
  }

  /** Each encoded leg contributes one address and two numbers; the others nothing. */
  lemma {:induction false} FlattenLengths(ps: seq<Payment>)
    ensures |Flatten(ps, LegAddr)| == LegCount(ps)
    ensures |Flatten(ps, LegNums)| == 2 * LegCount(ps)
  {
    if |ps| > 0 {
      FlattenLengths(ps[1..]);
    }
  }

  lemma {:induction false} AllLegsCount(ps: seq<Payment>)
    requires AllLegs(ps)
    ensures LegCount(ps) == |ps|
  {
    if |ps| > 0 {
      assert AllLegs(ps[1..]) by {
        forall i | 0 <= i < |ps| - 1 ensures IsLeg(ps[1..][i]) {
          assert ps[1..][i] == ps[i + 1];
        }
      }
      AllLegsCount(ps[1..]);
    }
  }

  /**
   * The header: buyer and seller open `addr`; ticket, nonce, the two wallet
   * modes and the number of payments open `nums`, in that order; `bdata`
   * opens with "0x". The lengths count only the encoded legs.
   */
  lemma ArgumentsShape(o: Offer)
    ensures var a := ArgumentsOf(o);
      && |a.addr| == 2 + LegCount(o.payments)
      && a.addr[0] == o.buyer && a.addr[1] == o.seller
      && |a.nums| == 5 + 2 * LegCount(o.payments)
      && a.nums[..5] == [o.ticket, o.nonce, o.buyerMode, o.sellerMode, |o.payments|]
      && a.bdata[..2] == "0x"
  {
    FlattenLengths(o.payments);
  }

  /** When every mode is 1 or 2, `nums[4]` fixes the lengths of `nums` and `addr`. */
  lemma AllLegsShape(o: Offer)
    requires AllLegs(o.payments)
    ensures var a := ArgumentsOf(o);
      |a.nums| == 5 + 2 * a.nums[4] && |a.addr| == 2 + a.nums[4]
  {
    ArgumentsShape(o);
    AllLegsCount(o.payments);
    assert ArgumentsOf(o).nums[4] == ArgumentsOf(o).nums[..5][4];
  }

  /**
   * The i-th payment, when its mode is 1 or 2, sits after the legs encoded
   * before it: its mode and price at `nums[5 + 2k]`, `nums[6 + 2k]` and its
   * address at `addr[2 + k]`, where k counts the encoded legs among the
   * first i payments.
   */
  lemma LegPosition(o: Offer, i: nat)
    requires i < |o.payments| && IsLeg(o.payments[i])
    ensures var a, k := ArgumentsOf(o), LegCount(o.payments[..i]);
      && 6 + 2 * k < |a.nums| && a.nums[5 + 2 * k] == o.payments[i].mode && a.nums[6 + 2 * k] == o.payments[i].price
      && 2 + k < |a.addr| && a.addr[2 + k] == o.payments[i].address
  {
    var ps := o.payments;
    var p := ps[i];
    var k := LegCount(ps[..i]);
    assert ps == ps[..i] + ([p] + ps[i + 1..]);
    FlattenAppend(ps[..i], [p] + ps[i + 1..], LegNums);
    FlattenAppend(ps[..i], [p] + ps[i + 1..], LegAddr);
    FlattenLengths(ps[..i]);
    assert Flatten([p] + ps[i + 1..], LegNums) == [p.mode, p.price] + Flatten(ps[i + 1..], LegNums);
    assert Flatten([p] + ps[i + 1..], LegAddr) == [p.address] + Flatten(ps[i + 1..], LegAddr);
    FlattenLengths(ps);
  }

  /**
   * One more payment at the end of the offer: the leg count in `nums[4]`
   * goes up by one whatever its mode; a mode 1 or 2 payment appends its mode
   * and price to `nums` and its address to `addr`; only a mode 2 payment
   * appends its authorization to `bdata`; any other mode appends nothing.
   */
  lemma AppendPayment(o: Offer, p: Payment)
    ensures var a, b := ArgumentsOf(o), ArgumentsOf(o.(payments := o.payments + [p]));
      && |a.nums| >= 5
      && b.nums[..5] == a.nums[..5][4 := |o.payments| + 1]
      && b.nums[5..] == a.nums[5..] + (if IsLeg(p) then [p.mode, p.price] else [])
      && b.addr == a.addr + (if IsLeg(p) then [p.address] else [])
      && b.bdata == a.bdata + (if p.mode == 2 then SliceFrom(p.sig, 2) else "")
  {
    var ps := o.payments;
    FlattenAppend(ps, [p], LegNums);
    FlattenAppend(ps, [p], LegAddr);
    FlattenAppend(ps, [p], LegPayload);
    assert Flatten([p], LegNums) == LegNums(p) + Flatten([p][1..], LegNums);
    assert Flatten([p], LegAddr) == LegAddr(p) + Flatten([p][1..], LegAddr);
    assert Flatten([p], LegPayload) == LegPayload(p) + Flatten([p][1..], LegPayload);
  }

  /** Payments whose parts agree one by one flatten to the same sequence. */
  lemma {:induction false} FlattenSameParts<T>(a: seq<Payment>, b: seq<Payment>, f: Payment -> seq<T>)
    requires |a| == |b| && forall j :: 0 <= j < |a| ==> f(a[j]) == f(b[j])
    ensures Flatten(a, f) == Flatten(b, f)
  {
    if |a| > 0 {
      assert forall j :: 0 <= j < |a| - 1 ==> a[1..][j] == a[j + 1] && b[1..][j] == b[j + 1];
      FlattenSameParts(a[1..], b[1..], f);
    }
  }

  /**
   * The `sig` of a payment whose mode is not 2 is never read: replacing it
   * leaves `addr`, `nums` and `bdata` unchanged, so it cannot be recovered.
   */
  lemma NonRelayedSigIgnored(o: Offer, i: nat, s: string)
    requires i < |o.payments| && o.payments[i].mode != 2
    ensures ArgumentsOf(o.(payments := o.payments[i := o.payments[i].(sig := s)])) == ArgumentsOf(o)
  {
    var ps := o.payments;
    var qs := ps[i := ps[i].(sig := s)];
    FlattenSameParts(ps, qs, LegAddr);
    FlattenSameParts(ps, qs, LegNums);
    FlattenSameParts(ps, qs, LegPayload);
  }

  /** Parts of one fixed width w make w characters per payment. */
  lemma {:induction false} FlattenWidth<T>(ps: seq<Payment>, f: Payment -> seq<T>, w: nat)
    requires forall j :: 0 <= j < |ps| ==> |f(ps[j])| == w
    ensures |Flatten(ps, f)| == w * |ps|
  {
    if |ps| > 0 {
      assert forall j :: 0 <= j < |ps| - 1 ==> ps[1..][j] == ps[j + 1];
      FlattenWidth(ps[1..], f, w);
      assert w * |ps| == w + w * (|ps| - 1);
    }
  }

  /** Parts of one fixed width w lie back to back: the i-th at offset w * i. */
  lemma FlattenFixedWidth<T>(ps: seq<Payment>, f: Payment -> seq<T>, w: nat, i: nat)
    requires forall j :: 0 <= j < |ps| ==> |f(ps[j])| == w
    requires i < |ps|
    ensures |Flatten(ps, f)| == w * |ps|
    ensures w * i + w <= |Flatten(ps, f)| && Flatten(ps, f)[w * i .. w * i + w] == f(ps[i])
  {
    FlattenWidth(ps, f, w);
    var before, after := ps[..i], ps[i + 1..];
    assert ps == before + ([ps[i]] + after);
    FlattenAppend(before, [ps[i]] + after, f);
    assert Flatten([ps[i]] + after, f) == f(ps[i]) + Flatten(after, f);
    assert forall j :: 0 <= j < |before| ==> before[j] == ps[j];
    FlattenWidth(before, f, w);
    var A, B, C := Flatten(before, f), f(ps[i]), Flatten(after, f);
    assert Flatten(ps, f) == A + (B + C);
    assert |A| == w * i;
    assert (A + (B + C))[|A| .. |A| + |B|] == B;
  }

  /**
   * `prices` is "0x" followed by one 64-digit word per payment, in payment
   * order, and the i-th word reads back as the i-th price.
   */
  lemma PricesLayout(ps: seq<Payment>, i: nat)
    requires PricesInRange(ps) && i < |ps|
    ensures var prices := PackedOf(ps).prices;
      && |prices| == 2 + 64 * |ps|
      && prices[..2] == "0x"
      && IsHex(prices[2 + 64 * i .. 66 + 64 * i])
      && HexValue(prices[2 + 64 * i .. 66 + 64 * i]) == ps[i].price
  {
    forall j | 0 <= j < |ps| ensures |PriceWord(ps[j])| == 64 {
      assert EncodeU256(ps[j].price).Some?;
    }
    FlattenFixedWidth(ps, PriceWord, 64, i);
    var prices := PackedOf(ps).prices;
    assert prices[2 + 64 * i .. 66 + 64 * i] == Flatten(ps, PriceWord)[64 * i .. 64 * i + 64];
    assert EncodeU256(ps[i].price).Some?;
  }

  /** The length of `prices` alone, which holds for every list of in-range prices. */
  lemma PricesLength(ps: seq<Payment>)
    requires PricesInRange(ps)
    ensures |PackedOf(ps).prices| == 2 + 64 * |ps|
  {
    if |ps| > 0 {
      PricesLayout(ps, 0);
    }
  }

  /**
   * An address of the width `getCurrencies` expects: "0x" and 40 more
   * characters. The digits are not checked (checksummed addresses mix case).
   */
  predicate HasAddressWidth(s: string)
  {
    |s| == 42 && s[..2] == "0x"
  }

  /**
   * When every payment address is "0x" and 40 characters, `currencies` is "0x"
   * followed by the 40 characters of each address after "0x", in payment order.
   */
  lemma CurrenciesLayout(ps: seq<Payment>, i: nat)
    requires forall j :: 0 <= j < |ps| ==> HasAddressWidth(ps[j].address)
    requires i < |ps|
    ensures var currencies := PackedOf(ps).currencies;
      && |currencies| == 2 + 40 * |ps|
      && currencies[..2] == "0x"
      && "0x" + currencies[2 + 40 * i .. 42 + 40 * i] == ps[i].address
  {
    forall j | 0 <= j < |ps| ensures |CurrencyPart(ps[j])| == 40 {
    }
    FlattenFixedWidth(ps, CurrencyPart, 40, i);
    var currencies := PackedOf(ps).currencies;
    assert currencies[2 + 40 * i .. 42 + 40 * i] == Flatten(ps, CurrencyPart)[40 * i .. 40 * i + 40];
    assert ps[i].address == ps[i].address[..2] + ps[i].address[2..];
  }
}
