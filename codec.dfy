/**
 * The inverse of `getArguments`: a decoder reading `nums[4]` legs back out of
 * `(addr, nums, bdata)`, following the layout the encoder writes. It is the
 * partner against which the encoder is shown to lose nothing: for offers of
 * the widths the tests use, decoding the encoding gives the offer back, and
 * whatever decodes is exactly the encoding of what it decodes to.
 */
module Codec {
  import opened Wrappers
  import opened Utils
  import opened Layout

  /**
   * A signature of the width the signer returns: "0x" and 130 more characters
   * (65 bytes in hex). The digits themselves are not checked.
   */
  predicate IsSignature(s: string)
  {
    |s| == 2 + SIG_HEX_LEN && s[..2] == "0x"
  }

  /**
   * A leg the encoder can carry without loss: mode 1 without an
   * authorization, or mode 2 with an authorization of L digits after "0x".
   */
  predicate WellFormedLeg(p: Payment, payloadLen: nat)
  {
    || (p.mode == 1 && p.sig == "")
    || (p.mode == 2 && |p.sig| == 2 + payloadLen && p.sig[..2] == "0x")
  }

  predicate WellFormed(o: Offer, payloadLen: nat)
  {
    && IsSignature(o.buyerSignature)
    && IsSignature(o.sellerSignature)
    && forall i :: 0 <= i < |o.payments| ==> WellFormedLeg(o.payments[i], payloadLen)
  }

  datatype DecodeError =
    | NumsTooShort         // fewer numbers than the header and the legs need
    | AddrTooShort         // fewer addresses than the header and the legs need
    | NegativeField        // a ticket, nonce, leg count or price below zero
    | SignaturesTooShort   // `bdata` lacks "0x" or the two fixed signatures
    | UnknownMode          // a leg whose mode is neither 1 nor 2
    | PayloadTooShort      // a mode 2 leg whose authorization is cut short
    | TrailingData         // numbers, addresses or bytes left after the last leg

  /** Offset in `bdata` where the leg payloads start. */
  const PAYLOADS_START: nat := 2 + 2 * SIG_HEX_LEN

  /** Reads `count` legs off the fronts of the number, address and payload streams. */
  function DecodeLegs(count: nat, nums: seq<int>, addr: seq<string>, blob: string, payloadLen: nat)
    : Result<seq<Payment>, DecodeError>
  {
    if count == 0 then
      if nums != [] || addr != [] || blob != [] then Err(TrailingData) else Ok([])
    else if |nums| < 2 then Err(NumsTooShort)
    else if |addr| < 1 then Err(AddrTooShort)
    else if nums[0] != 1 && nums[0] != 2 then Err(UnknownMode)
    else if nums[1] < 0 then Err(NegativeField)
    else if nums[0] == 2 && |blob| < payloadLen then Err(PayloadTooShort)
    else
      var sig := if nums[0] == 2 then "0x" + blob[..payloadLen] else "";
      var rest := if nums[0] == 2 then blob[payloadLen..] else blob;
      match DecodeLegs(count - 1, nums[2..], addr[1..], rest, payloadLen)
      case Err(e) => Err(e)
      case Ok(legs) => Ok([Payment(nums[0], addr[0], nums[1], sig)] + legs)
  }

  /** Reads an offer back out of the three arguments of `verifySeal` / `seal`. */
  function Decode(a: Arguments, payloadLen: nat): Result<Offer, DecodeError>
  {
    if |a.nums| < 5 then Err(NumsTooShort)
    else if |a.addr| < 2 then Err(AddrTooShort)
    else if a.nums[0] < 0 || a.nums[1] < 0 || a.nums[4] < 0 then Err(NegativeField)
    else if |a.bdata| < PAYLOADS_START || a.bdata[..2] != "0x" then Err(SignaturesTooShort)
    else
      match DecodeLegs(a.nums[4], a.nums[5..], a.addr[2..], a.bdata[PAYLOADS_START..], payloadLen)
      case Err(e) => Err(e)
      case Ok(legs) =>
        Ok(Offer(a.addr[0], a.addr[1], a.nums[0], a.nums[1], a.nums[2], a.nums[3], legs,
                 "0x" + a.bdata[2 .. 2 + SIG_HEX_LEN], "0x" + a.bdata[2 + SIG_HEX_LEN .. PAYLOADS_START]))
  }

  lemma {:induction false} DecodeLegsComplete(ps: seq<Payment>, payloadLen: nat)
    requires forall i :: 0 <= i < |ps| ==> WellFormedLeg(ps[i], payloadLen)
    ensures DecodeLegs(|ps|, Flatten(ps, LegNums), Flatten(ps, LegAddr), Flatten(ps, LegPayload), payloadLen) == Ok(ps)
  {
    if |ps| > 0 {
      var p, tail := ps[0], ps[1..];
      assert forall i :: 0 <= i < |tail| ==> tail[i] == ps[i + 1];
      DecodeLegsComplete(tail, payloadLen);
      var nums, addr, blob := Flatten(ps, LegNums), Flatten(ps, LegAddr), Flatten(ps, LegPayload);
      assert nums == [p.mode, p.price] + Flatten(tail, LegNums);
      assert nums[2..] == Flatten(tail, LegNums);
      assert addr == [p.address] + Flatten(tail, LegAddr);
      assert addr[1..] == Flatten(tail, LegAddr);
      if p.mode == 2 {
        assert blob == p.sig[2..] + Flatten(tail, LegPayload);
        assert blob[..payloadLen] == p.sig[2..] && blob[payloadLen..] == Flatten(tail, LegPayload);
        assert "0x" + p.sig[2..] == p.sig;
      } else {
        assert blob == Flatten(tail, LegPayload);
      }
      assert ps == [p] + tail;
    }
  }

  lemma {:induction false} DecodeLegsSound(count: nat, nums: seq<int>, addr: seq<string>, blob: string,
                                           payloadLen: nat, ps: seq<Payment>)
    requires DecodeLegs(count, nums, addr, blob, payloadLen) == Ok(ps)
    ensures |ps| == count
    ensures forall i :: 0 <= i < |ps| ==> WellFormedLeg(ps[i], payloadLen)
    ensures Flatten(ps, LegNums) == nums && Flatten(ps, LegAddr) == addr && Flatten(ps, LegPayload) == blob
  {
    if count > 0 {
      var rest := DecodedFront(count, nums, addr, blob, payloadLen, ps);
      var tail := ps[1..];
      DecodeLegsSound(count - 1, nums[2..], addr[1..], rest, payloadLen, tail);
      DecodedLegStep(ps, tail, payloadLen);
      var p := ps[0];
      assert Flatten(ps, LegNums) == nums by {
        assert [p.mode, p.price] == [nums[0], nums[1]];
        assert nums == [nums[0], nums[1]] + nums[2..];
      }
      assert Flatten(ps, LegAddr) == addr by {
        assert addr == [addr[0]] + addr[1..];
      }
      assert Flatten(ps, LegPayload) == blob by {
        if nums[0] == 2 {
          assert SliceFrom(p.sig, 2) == blob[..payloadLen];
          assert blob == blob[..payloadLen] + blob[payloadLen..];
        }
      }
    }
  }

  /** What a successful decoding of at least one leg says about its front leg and the rest. */
  lemma DecodedFront(count: nat, nums: seq<int>, addr: seq<string>, blob: string,
                     payloadLen: nat, ps: seq<Payment>) returns (rest: string)
    requires count > 0 && DecodeLegs(count, nums, addr, blob, payloadLen) == Ok(ps)
    ensures |nums| >= 2 && |addr| >= 1 && |ps| >= 1
    ensures nums[0] == 2 ==> |blob| >= payloadLen && rest == blob[payloadLen..]
    ensures nums[0] != 2 ==> rest == blob
    ensures ps[0] == Payment(nums[0], addr[0], nums[1], if nums[0] == 2 then "0x" + blob[..payloadLen] else "")
    ensures WellFormedLeg(ps[0], payloadLen)
    ensures DecodeLegs(count - 1, nums[2..], addr[1..], rest, payloadLen) == Ok(ps[1..])
  {
    rest := if nums[0] == 2 then blob[payloadLen..] else blob;
    var tail := DecodeLegs(count - 1, nums[2..], addr[1..], rest, payloadLen).value;
    assert ps == [ps[0]] + tail;
  }

  /** The front leg of a decoded list and its parts. */
  lemma DecodedLegStep(ps: seq<Payment>, tail: seq<Payment>, payloadLen: nat)
    requires |ps| > 0 && ps[1..] == tail && WellFormedLeg(ps[0], payloadLen)
    requires forall i :: 0 <= i < |tail| ==> WellFormedLeg(tail[i], payloadLen)
    ensures forall i :: 0 <= i < |ps| ==> WellFormedLeg(ps[i], payloadLen)
    ensures Flatten(ps, LegNums) == [ps[0].mode, ps[0].price] + Flatten(tail, LegNums)
    ensures Flatten(ps, LegAddr) == [ps[0].address] + Flatten(tail, LegAddr)
    ensures Flatten(ps, LegPayload) == SliceFrom(ps[0].sig, 2) + Flatten(tail, LegPayload)
  {
  }

  /** The parts of the encoding that `Decode` slices off. */
  lemma EncodingParts(o: Offer, payloadLen: nat)
    requires WellFormed(o, payloadLen)
    ensures var a := ArgumentsOf(o);
      && |a.nums| >= 5 && |a.addr| >= 2 && |a.bdata| >= PAYLOADS_START
      && a.nums[5..] == Flatten(o.payments, LegNums)
      && a.addr[2..] == Flatten(o.payments, LegAddr)
      && a.bdata[PAYLOADS_START..] == Flatten(o.payments, LegPayload)
      && "0x" + a.bdata[2 .. 2 + SIG_HEX_LEN] == o.buyerSignature
      && "0x" + a.bdata[2 + SIG_HEX_LEN .. PAYLOADS_START] == o.sellerSignature
  {
  }

  /**
   * Round trip: an offer whose two signatures are "0x" and 130 characters,
   * whose legs all have mode 1 or 2, whose mode 1 legs carry no
   * authorization, and whose mode 2 authorizations are "0x" and L characters
   * is recovered from its encoding.
   */
  lemma RoundTrip(o: Offer, payloadLen: nat)
    requires WellFormed(o, payloadLen)
    ensures Decode(ArgumentsOf(o), payloadLen) == Ok(o)
  {
    EncodingParts(o, payloadLen);
    DecodeLegsComplete(o.payments, payloadLen);
  }

  /** Conversely, whatever decodes is well formed and is exactly the encoding of its result. */
  lemma DecodeExact(a: Arguments, payloadLen: nat)
    requires Decode(a, payloadLen).Ok?
    ensures WellFormed(Decode(a, payloadLen).value, payloadLen)
    ensures ArgumentsOf(Decode(a, payloadLen).value) == a
  {
    var o := Decode(a, payloadLen).value;
    DecodeLegsSound(a.nums[4], a.nums[5..], a.addr[2..], a.bdata[PAYLOADS_START..], payloadLen, o.payments);
    assert o.buyerSignature[..2] == "0x" && o.sellerSignature[..2] == "0x";
    var e := ArgumentsOf(o);
    assert e.addr == a.addr[..2] + a.addr[2..] == a.addr;
    assert e.nums == a.nums[..5] + a.nums[5..] == a.nums;
    assert SliceFrom(o.buyerSignature, 2) == a.bdata[2 .. 2 + SIG_HEX_LEN];
    assert SliceFrom(o.sellerSignature, 2) == a.bdata[2 + SIG_HEX_LEN .. PAYLOADS_START];
    assert a.bdata == a.bdata[..2] + a.bdata[2 .. 2 + SIG_HEX_LEN]
      + a.bdata[2 + SIG_HEX_LEN .. PAYLOADS_START] + a.bdata[PAYLOADS_START..];
  }

  /** Arguments that decode have exactly `5 + 2 * nums[4]` numbers and `2 + nums[4]` addresses. */
  lemma DecodedShape(a: Arguments, payloadLen: nat)
    requires Decode(a, payloadLen).Ok?
    ensures |a.nums| == 5 + 2 * a.nums[4] && |a.addr| == 2 + a.nums[4]
  {
    DecodeExact(a, payloadLen);
    var o := Decode(a, payloadLen).value;
    assert AllLegs(o.payments);
    AllLegsShape(o);
  }

  /** The number of mode 2 legs, each of which adds one authorization to `bdata`. */
  function RelayedCount(ps: seq<Payment>): nat
  {
    if |ps| == 0 then 0 else (if ps[0].mode == 2 then 1 else 0) + RelayedCount(ps[1..])
  }

  /** `bdata` holds "0x", two 130-digit signatures and L digits per mode 2 leg. */
  lemma {:induction false} BdataLength(o: Offer, payloadLen: nat)
    requires WellFormed(o, payloadLen)
    ensures |ArgumentsOf(o).bdata| == PAYLOADS_START + payloadLen * RelayedCount(o.payments)
  {
    PayloadsLength(o.payments, payloadLen);
  }

  lemma {:induction false} PayloadsLength(ps: seq<Payment>, payloadLen: nat)
    requires forall i :: 0 <= i < |ps| ==> WellFormedLeg(ps[i], payloadLen)
    ensures |Flatten(ps, LegPayload)| == payloadLen * RelayedCount(ps)
  {
    if |ps| > 0 {
      assert forall i :: 0 <= i < |ps| - 1 ==> ps[1..][i] == ps[i + 1];
      PayloadsLength(ps[1..], payloadLen);
      if ps[0].mode == 2 {
        assert payloadLen * RelayedCount(ps) == payloadLen + payloadLen * RelayedCount(ps[1..]);
      }
    }
  }

  /** The signature placeholder has the fixed signature width. */
  lemma ZeroSigIsSignature()
    ensures IsSignature(ZERO_SIG)
  {
  }

  /**
   * The buyer-signature tamper of the tests, `"0x" ++ bdata.slice(132, 262) ++
   * bdata.slice(132)`, decodes to the same offer with the seller's signature
   * in the buyer's place: the decoder sees no other change, so a contract
   * rejecting it can only be rejecting the buyer signature.
   */
  lemma BuyerSignatureSwap(o: Offer, payloadLen: nat)
    requires WellFormed(o, payloadLen)
    ensures var a := ArgumentsOf(o);
      var tampered := "0x" + a.bdata[2 + SIG_HEX_LEN .. PAYLOADS_START] + SliceFrom(a.bdata, 2 + SIG_HEX_LEN);
      Decode(Arguments(a.addr, a.nums, tampered), payloadLen) == Ok(o.(buyerSignature := o.sellerSignature))
  {
    var o' := o.(buyerSignature := o.sellerSignature);
    var a, a' := ArgumentsOf(o), ArgumentsOf(o');
    EncodingParts(o, payloadLen);
    assert a'.bdata == "0x" + a.bdata[2 + SIG_HEX_LEN .. PAYLOADS_START] + SliceFrom(a.bdata, 2 + SIG_HEX_LEN);
    RoundTrip(o', payloadLen);
  }

  /**
   * A change to one character of the buyer signature region of `bdata`
   * changes the decoded buyer signature at that position and nothing else.
   */
  lemma BuyerSignatureRegion(o: Offer, payloadLen: nat, j: nat, c: char)
    requires WellFormed(o, payloadLen)
    requires 2 <= j < 2 + SIG_HEX_LEN
    ensures var a := ArgumentsOf(o);
      Decode(Arguments(a.addr, a.nums, a.bdata[j := c]), payloadLen)
        == Ok(o.(buyerSignature := o.buyerSignature[j := c]))
  {
    var o' := o.(buyerSignature := o.buyerSignature[j := c]);
    var a, a' := ArgumentsOf(o), ArgumentsOf(o');
    assert a'.bdata == a.bdata[j := c];
    RoundTrip(o', payloadLen);
  }

  /** Likewise for the seller signature region. */
  lemma SellerSignatureRegion(o: Offer, payloadLen: nat, j: nat, c: char)
    requires WellFormed(o, payloadLen)
    requires 2 + SIG_HEX_LEN <= j < PAYLOADS_START
    ensures var a := ArgumentsOf(o);
      Decode(Arguments(a.addr, a.nums, a.bdata[j := c]), payloadLen)
        == Ok(o.(sellerSignature := o.sellerSignature[j - SIG_HEX_LEN := c]))
  {
    var o' := o.(sellerSignature := o.sellerSignature[j - SIG_HEX_LEN := c]);
    var a, a' := ArgumentsOf(o), ArgumentsOf(o');
    assert a'.bdata == a.bdata[j := c];
    RoundTrip(o', payloadLen);
  }

  /** Cutting `nums` short of the encoding, as the ERC-2280 length test does, never decodes. */
  lemma TruncatedNumsRejected(o: Offer, payloadLen: nat, k: nat)
    requires WellFormed(o, payloadLen)
    requires k < |ArgumentsOf(o).nums|
    ensures var a := ArgumentsOf(o);
      Decode(Arguments(a.addr, a.nums[..k], a.bdata), payloadLen).Err?
  {
    var a := ArgumentsOf(o);
    var t := Arguments(a.addr, a.nums[..k], a.bdata);
    assert AllLegs(o.payments);
    AllLegsShape(o);
    if k >= 5 {
      assert t.nums[4] == a.nums[4];
      if Decode(t, payloadLen).Ok? {
        DecodedShape(t, payloadLen);
      }
    }
  }

  /** Zeroing the leg count of an offer with payments, as the currency-count test does, never decodes. */
  lemma ZeroLegCountRejected(o: Offer, payloadLen: nat)
    requires WellFormed(o, payloadLen) && |o.payments| > 0
    ensures var a := ArgumentsOf(o);
      Decode(Arguments(a.addr, a.nums[4 := 0], a.bdata), payloadLen).Err?
  {
    var a := ArgumentsOf(o);
    var t := Arguments(a.addr, a.nums[4 := 0], a.bdata);
    assert AllLegs(o.payments);
    AllLegsShape(o);
    if Decode(t, payloadLen).Ok? {
      DecodedShape(t, payloadLen);
    }
  }
}
