# Offer wire-format encoder of the MetaMarketplace test helpers

The marketplace settles a ticket sale from an offer that buyer and seller sign
off-chain. The test helpers in `test_cases/utils.js` turn a structured offer
into the three arguments of the contract's `verifySeal` and `seal` entry points:

- `addr` — `[buyer, seller, leg addresses…]`;
- `nums` — `[ticket, nonce, buyer_mode, seller_mode, leg_count, (mode, price)…]`;
- `bdata` — `"0x"`, then the buyer signature, the seller signature and each
  mode 2 (ERC-2280 meta-transfer) leg's authorization, each without its "0x".

They also build the two packed strings `currencies` and `prices`, which are
fields of the signed `MarketplaceOffer` record. `prices` holds one 64-digit
`uint256` word per payment, whatever its mode, made by `encodeU256`.

This project models those helpers in Dafny:

- `hex.dfy` (module `Hex`) defines lower-case hex strings and their big-endian
  value. It also defines `NatToHex`, the minimal hex rendering that stands in
  for BigNumber's `toHexString()`.
- `utils.dfy` (module `Utils`) holds the offer datatypes and `EncodeU256`.
  It also holds `GetArguments` and `GetCurrencies`. Like the source, these are
  loops that grow their accumulators. Each is proved equal to a specification
  function, `ArgumentsOf` or `PackedOf`.
- `layout.dfy` (module `Layout`) proves where each part of an offer ends up:
  the header positions, the position of the i-th leg, the lengths, what one
  more payment appends, and the position of each price word and currency.
- `codec.dfy` (module `Codec`) is a decoder that reads `nums[4]` legs back out
  of the encoding. It is the encoder's partner. Both directions of the round
  trip are proved for offers with 132-character signatures that start with
  "0x", modes 1 or 2 only, mode 1 legs without an authorization, and mode 2
  authorizations that start with "0x" and have one fixed width `payloadLen`
  after it (`Codec.WellFormed`). The module also
  states what the tampering tests rely on: the swapped buyer signature, the
  truncated `nums`, and the zeroed leg count.

A JavaScript throw becomes an explicit result: `encodeU256` of a number that
needs more than 64 hex digits makes `"0".repeat` throw a RangeError. Here it
returns `None`, and `GetCurrencies` returns `None` when any price is out of
range. `s.slice(2)` is modelled exactly: a string shorter than two characters
gives "".

A behaviour of the code worth knowing: `nums[4]` is `payments.length`, every
payment included. Yet only payments of mode 1 or 2 add anything to `nums` and
`addr`. So `|nums| == 5 + 2 * nums[4]` holds only when every mode is 1 or 2
(`Layout.AllLegsShape`). With any other mode, `|nums|` is smaller
(`Layout.ArgumentsShape`, `Layout.AppendPayment`). Such a payment is still
packed into `currencies` and `prices`, so it is signed over even though it is
absent from `addr` and `nums` (`Layout.PricesLength` counts every payment).
A mode 1 payment's `sig` is never read, so it is not encoded and cannot be
recovered from the arguments (`Layout.NonRelayedSigIgnored`). Likewise `slice(2)`
drops the first two characters of each signature and authorization whatever
they are. The encoder also accepts an offer with no payments, which the
contract rejects.

## Model

| member | source | states |
|---|---|---|
| `Hex.ToHexString` | test_cases/utils.js:66 | the modelled `toHexString()` is "0x" followed by hex digits whose big-endian value is the input |
| `Hex.NatToHex` | test_cases/utils.js:66 | the digits after "0x" are non-empty lower-case hex and denote the input |
| `Hex.NatToHexFits` | test_cases/utils.js:66-67 | the digits fit in k places exactly when n < 16^k, so `64 - hexed.length` is negative exactly when n >= 2^256 |
| `Hex.Pow16At64` | test_cases/utils.js:65-68 | 64 hex digits are exactly a `uint256`: 16^64 = 2^256 |
| `Hex.LeadingZeros` | test_cases/utils.js:67 | left-padding with '0' keeps the string hex and keeps its value |
| `Hex.HexValueInjective` | test_cases/utils.js:67 | two hex words of the same width with the same value are equal |
| `Utils.EncodeU256` | test_cases/utils.js:65-68 | succeeds exactly when n < 2^256 (otherwise the RangeError); then the result has 64 characters, all hex digits, and reads back as n |
| `Utils.EncodeU256LeftPads` | test_cases/utils.js:65-68 | the word is the zero left-padding of any rendering of n in at most 64 digits, so it does not depend on BigNumber's formatting |
| `Utils.EncodeU256Injective` | test_cases/utils.js:65-68 | different numbers in range give different words |
| `Utils.ArgumentsSnoc` | test_cases/utils.js:86-97 | one loop iteration appends the leg's parts to `addr`, `nums` and `bdata`, and changes nothing else |
| `Utils.PackedSnoc` | test_cases/utils.js:107-110 | one loop iteration appends the address digits to `currencies` and the price word to `prices` |
| `Utils.GetArguments` | test_cases/utils.js:70-101 | the loop returns exactly the layout `ArgumentsOf`: header, then each encoded leg in payment order, and the lemmas below |
| `Utils.GetCurrencies` | test_cases/utils.js:103-113 | returns a result exactly when every price is below 2^256, and then exactly "0x" ++ the address digits and "0x" ++ the price words, in payment order |
| `Layout.FlattenLengths` | test_cases/utils.js:86-97 | each mode 1 or 2 payment adds one address and two numbers; any other payment adds none |
| `Layout.ArgumentsShape` | test_cases/utils.js:75-84 | `addr[0..1]` are buyer and seller, `nums[0..4]` are ticket, nonce, buyer mode, seller mode and the payment count, `bdata` starts with "0x"; `|addr|` and `|nums|` count only the encoded legs |
| `Layout.AllLegsShape` | test_cases/utils.js:79-97 | when every mode is 1 or 2, `|nums| == 5 + 2*nums[4]` and `|addr| == 2 + nums[4]` |
| `Layout.LegPosition` | test_cases/utils.js:86-97 | the i-th payment of mode 1 or 2 has its mode and price at `nums[5+2k]`, `nums[6+2k]` and its address at `addr[2+k]`, where k counts the encoded legs before it |
| `Layout.AppendPayment` | test_cases/utils.js:79-97 | one more payment raises `nums[4]` whatever its mode; mode 1 or 2 appends its mode and price to `nums` and its address to `addr`; only mode 2 appends its authorization to `bdata`; other modes append nothing |
| `Layout.NonRelayedSigIgnored` | test_cases/utils.js:87-90 | replacing the `sig` of any payment whose mode is not 2 leaves all three arguments unchanged |
| `Layout.FlattenFixedWidth` | test_cases/utils.js:107-110 | parts of one width w are laid back to back, the i-th at offset w*i |
| `Layout.PricesLayout` | test_cases/utils.js:103-113 | `prices` is "0x" and one 64-digit hex word per payment; the i-th word reads back as the i-th price |
| `Layout.PricesLength` | test_cases/utils.js:103-113 | `|prices| == 2 + 64*|payments|` whenever every price is in range |
| `Layout.CurrenciesLayout` | test_cases/utils.js:103-113 | with addresses of 42 characters starting "0x", `currencies` is "0x" and 40 digits per payment, and "0x" ++ the i-th block is the i-th address |
| `Codec.RoundTrip` | test_cases/utils.js:70-101 | decoding the encoding of an offer of the fixed widths gives back that offer |
| `Codec.DecodeExact` | test_cases/utils.js:70-101 | whatever decodes has the fixed widths and is exactly the encoding of what it decodes to |
| `Codec.DecodedShape` | test_cases/utils.js:75-97 | arguments that decode have `5 + 2*nums[4]` numbers and `2 + nums[4]` addresses |
| `Codec.BdataLength` | test_cases/utils.js:73-96 | `|bdata| == 2 + 130 + 130 + payloadLen * (number of mode 2 legs)`; mode 1 legs add nothing |
| `Codec.ZeroSigIsSignature` | test_cases/utils.js:116 | `ZEROSIG` is "0x" and 130 characters, the fixed signature width |
| `Codec.BuyerSignatureSwap` | test_cases/seal_invalid_buyer_signature.js:73 | the tampered `bdata` decodes to the same offer with the seller signature in the buyer's place, and nothing else changed |
| `Codec.BuyerSignatureRegion` | test_cases/utils.js:83 | changing one character of `bdata[2..132]` changes only the decoded buyer signature, at the same position |
| `Codec.SellerSignatureRegion` | test_cases/utils.js:84 | changing one character of `bdata[132..262]` changes only the decoded seller signature |
| `Codec.TruncatedNumsRejected` | test_cases/seal_invalid_erc2280_nums_length.js:75 | any strict prefix of `nums` with the same `addr` and `bdata` fails to decode |
| `Codec.ZeroLegCountRejected` | test_cases/seal_invalid_currency_count.js:74 | setting `nums[4]` to 0 for an offer with payments makes the arguments fail to decode |

## Left out

- The settlement contract `MetaMarketplace_v0` (`verifySeal`, `seal` and the DAI offer entry points) is not part of this model; it is observed only through RPC calls and revert strings in the tests. `Codec.Decode` is this model's own inverse of the encoder, not the contract's decoder. Unlike the contract it accepts a leg count of 0, because the encoder produces one for an offer without payments.
- `expect_map`, `snapshot`, `revert` and `getEthersERC20Contract` are not modelled. They are JSON-RPC and ethers/web3 plumbing: balance queries, EVM snapshots, contract attachment.
- The EIP-712 signer schemas (`MarketplaceOfferSigner.js`, `DaiOfferSigner.js`, `DaiPlusOfferSigner.js`, `DaiPlusSigner.js`) are not modelled. Their hashing and secp256k1 signing happen in an external library. Signatures are opaque strings here.
- The migration script `migrations/2_MetaMarketplace_migration.js` and the scenario files under `test_cases/` are not modelled. They are network-bound. The scenario files serve only as evidence of the layout and the tamper cases.
- `Hex.ToHexString`: BigNumber's formatting is abstracted as "0x" plus the minimal digits. ethers pads to an even number of digits. `Utils.EncodeU256LeftPads` shows the padded word is the same for every such rendering.
- JavaScript's dynamic values are not modelled. Ticket, nonce and prices are exact natural numbers and modes are integers. Negative, fractional and unsafe JS-number inputs (2^53 or more, which BigNumber refuses before `"0".repeat` runs) are not modelled, nor are strings that stand for numbers. The 2^256 bound of `Utils.EncodeU256` is the one that applies to exact integer inputs. A mode 2 payment without a `sig` property would throw a TypeError; here every payment has a `sig` string, and "" stands for an absent one.
- The mode 2 authorization width is a parameter of the decoder (`payloadLen`). The ERC-2280 authorization format is defined by an external library that is not part of this model.
- The `ZERO` address constant (`test_cases/utils.js:115`) is not used by the encoder and is not modelled.
