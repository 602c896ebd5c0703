/**
 The swap path: the browser gate that must accept a decoded transaction before it is signed, and the
 API builder whose envelope it judges.
 */
module SwapGate {
  import opened Wrappers
  import opened DecimalAmounts
  import opened Envelopes

  const MAX_FEE_STROOPS: nat := 100_000
  const STELLAR_DECIMALS: nat := 7

  datatype Intent = Intent(
    account: string, sendAsset: Asset, sendAmount: string, destAsset: Asset, destMin: string,
    passphrase: string, allowTrustlineFor: Option<Asset>)

  function ToStroops(amount: string): Option<nat> {
    ToScaled(amount, STELLAR_DECIMALS)
  }

  // ---- What the gate is for: exactly one shape of transaction ----

  /** The one payment the user asked for, at no worse a price. */
  predicate IsTheSwap(op: Operation, intent: Intent) {
    && op.PathPaymentStrictSend?
    && ActsFor(op.source, intent.account)
    && op.destination == intent.account
    && op.sendAsset == intent.sendAsset
    && op.destAsset == intent.destAsset
    && ToStroops(op.sendAmount).Some? && ToStroops(op.sendAmount) == ToStroops(intent.sendAmount)
    && ToStroops(op.destMin).Some? && ToStroops(intent.destMin).Some?
    && ToStroops(op.destMin).value >= ToStroops(intent.destMin).value
  }

  /** The one trustline that may ride along, when the intent allows any. */
  predicate IsTheTrustline(op: Operation, intent: Intent) {
    && op.ChangeTrust?
    && ActsFor(op.source, intent.account)
    && intent.allowTrustlineFor.Some?
    && TrustMatches(op.line, intent.allowTrustlineFor.value)
  }

  /** The swap alone, or the swap and the trustline in either order. */
  predicate ExactlyTheSwap(ops: seq<Operation>, intent: Intent) {
    || (|ops| == 1 && IsTheSwap(ops[0], intent))
    || (|ops| == 2 && IsTheTrustline(ops[0], intent) && IsTheSwap(ops[1], intent))
    || (|ops| == 2 && IsTheSwap(ops[0], intent) && IsTheTrustline(ops[1], intent))
  }

  predicate Accepts(decoded: Option<Envelope>, intent: Intent) {
    && PrefaceHolds(decoded, intent.account, intent.passphrase, MAX_FEE_STROOPS)
    && ExactlyTheSwap(decoded.value.ops, intent)
  }

  // ---- The gate ----

  /** ops.find(...): the first strict send, or |ops|. */
  function StrictSendIndex(ops: seq<Operation>): (k: nat)
    ensures k <= |ops|
    ensures k < |ops| ==> ops[k].PathPaymentStrictSend?
    ensures forall j :: 0 <= j < k ==> !ops[j].PathPaymentStrictSend?
  {
    if ops == [] || ops[0].PathPaymentStrictSend? then 0 else 1 + StrictSendIndex(ops[1..])
  }

  /** Every operation but the k-th. */
  function Others(ops: seq<Operation>, k: nat): seq<Operation>
    requires k < |ops|
  {
    ops[..k] + ops[k + 1..]
  }

  predicate TrustlineReports(v: Violation, extra: seq<Operation>, account: string, id: Asset) {
    match v
    case UnexpectedOperation => exists op :: op in extra && !op.ChangeTrust?
    case TrustAssetMismatch => exists op :: op in extra && op.ChangeTrust? && !TrustMatches(op.line, id)
    case TrustSourceMismatch => exists op :: op in extra && op.ChangeTrust? && !ActsFor(op.source, account)
    case _ => false
  }

  /** The loop over the operations beside the swap. */
  method CheckTrustlines(extra: seq<Operation>, account: string, id: Asset) returns (violations: seq<Violation>)
    ensures forall v :: v in violations <==> TrustlineReports(v, extra, account, id)
  {
    violations := [];
    for i := 0 to |extra|
      invariant forall v :: v in violations <==> TrustlineReports(v, extra[..i], account, id)
    {
      var op := extra[i];
      assert extra[..i + 1] == extra[..i] + [op];
      if !op.ChangeTrust? {
        violations := violations + [UnexpectedOperation];
      } else {
        if !TrustMatches(op.line, id) { violations := violations + [TrustAssetMismatch]; }
        if !ActsFor(op.source, account) { violations := violations + [TrustSourceMismatch]; }
      }
    }
    assert extra[..|extra|] == extra;
  }

  predicate AmountReports(v: Violation, op: Operation, intent: Intent)
    requires op.PathPaymentStrictSend?
  {
    var sent, sentIntent := ToStroops(op.sendAmount), ToStroops(intent.sendAmount);
    var least, leastIntent := ToStroops(op.destMin), ToStroops(intent.destMin);
    match v
    case SendAmountInvalid => sent.None? || sentIntent.None?
    case SendAmountMismatch => sent.Some? && sentIntent.Some? && sent.value != sentIntent.value
    case DestMinInvalid => least.None? || leastIntent.None?
    case DestMinTooLow => least.Some? && leastIntent.Some? && least.value < leastIntent.value
    case _ => false
  }

  predicate PaymentReports(v: Violation, op: Operation, intent: Intent)
    requires op.PathPaymentStrictSend?
  {
    match v
    case OperationSourceMismatch => !ActsFor(op.source, intent.account)
    case SendAssetMismatch => op.sendAsset != intent.sendAsset
    case DestAssetMismatch => op.destAsset != intent.destAsset
    case DestinationMismatch => op.destination != intent.account
    case _ => AmountReports(v, op, intent)
  }

  /** The exact amount sold, and at least the accepted minimum bought. */
  method CheckAmounts(op: Operation, intent: Intent) returns (violations: seq<Violation>)
    requires op.PathPaymentStrictSend?
    ensures forall v :: v in violations <==> AmountReports(v, op, intent)
  {
    hide ToStroops;
    violations := [];
    var sent, sentIntent := ToStroops(op.sendAmount), ToStroops(intent.sendAmount);
    if sent.None? || sentIntent.None? {
      violations := violations + [SendAmountInvalid];
    } else if sent.value != sentIntent.value {
      violations := violations + [SendAmountMismatch];
    }
    var least, leastIntent := ToStroops(op.destMin), ToStroops(intent.destMin);
    if least.None? || leastIntent.None? {
      violations := violations + [DestMinInvalid];
    } else if least.value < leastIntent.value {
      violations := violations + [DestMinTooLow];
    }
  }

  /** The checks on the payment itself. */
  method CheckPayment(op: Operation, intent: Intent) returns (violations: seq<Violation>)
    requires op.PathPaymentStrictSend?
    ensures forall v :: v in violations <==> PaymentReports(v, op, intent)
  {
    hide ToStroops, AmountReports;
    violations := [];
    if !ActsFor(op.source, intent.account) { violations := violations + [OperationSourceMismatch]; }
    if op.sendAsset != intent.sendAsset { violations := violations + [SendAssetMismatch]; }
    if op.destAsset != intent.destAsset { violations := violations + [DestAssetMismatch]; }
    var amounts := CheckAmounts(op, intent);
    NoPartyInAmounts(op, intent);
    violations := violations + amounts;
    if op.destination != intent.account { violations := violations + [DestinationMismatch]; }
  }

  lemma NoPartyInAmounts(op: Operation, intent: Intent)
    requires op.PathPaymentStrictSend?
    ensures forall v :: AmountReports(v, op, intent) ==>
              && v != OperationSourceMismatch && v != SendAssetMismatch
              && v != DestAssetMismatch && v != DestinationMismatch
  {
  }

  lemma TheSwapIsNotReported(op: Operation, intent: Intent, v: Violation)
    requires IsTheSwap(op, intent)
    ensures !PaymentReports(v, op, intent)
  {
    hide ToStroops, ActsFor;
  }

  lemma OthersAreReported(op: Operation, intent: Intent) returns (v: Violation)
    requires op.PathPaymentStrictSend? && !IsTheSwap(op, intent)
    ensures PaymentReports(v, op, intent)
  {
    hide ToStroops, ActsFor;
    var sent, sentIntent := ToStroops(op.sendAmount), ToStroops(intent.sendAmount);
    var least, leastIntent := ToStroops(op.destMin), ToStroops(intent.destMin);
    v := if !ActsFor(op.source, intent.account) then OperationSourceMismatch
         else if op.sendAsset != intent.sendAsset then SendAssetMismatch
         else if op.destAsset != intent.destAsset then DestAssetMismatch
         else if op.destination != intent.account then DestinationMismatch
         else if sent.None? || sentIntent.None? then SendAmountInvalid
         else if sent.value != sentIntent.value then SendAmountMismatch
         else if least.None? || leastIntent.None? then DestMinInvalid
         else DestMinTooLow;
  }

  /** A payment nothing is reported about is the swap. */
  lemma SilentPayment(payment: seq<Violation>, op: Operation, intent: Intent)
    requires op.PathPaymentStrictSend?
    requires forall v :: v in payment <==> PaymentReports(v, op, intent)
    ensures payment == [] <==> IsTheSwap(op, intent)
    ensures NoTargetOperation !in payment
  {
    assert !PaymentReports(NoTargetOperation, op, intent) by { hide ToStroops; }
    hide PaymentReports, IsTheSwap;
    if payment != [] && IsTheSwap(op, intent) {
      assert payment[0] in payment;
      TheSwapIsNotReported(op, intent, payment[0]);
    } else if !IsTheSwap(op, intent) {
      var v := OthersAreReported(op, intent);
      assert v in payment;
    }
  }

  /**
   validateSwapXdr on a decoded envelope. It is silent exactly on the transactions that are the swap
   and nothing else, whatever order and kind of operations the envelope holds; and while nothing
   stops the inspection it leaves no violation out.
   */
  method ValidateSwap(decoded: Option<Envelope>, intent: Intent) returns (violations: seq<Violation>)
    ensures violations == [] <==> Accepts(decoded, intent)
    ensures forall v :: PrefaceReports(v, decoded, intent.account, intent.passphrase, MAX_FEE_STROOPS) ==>
              v in violations
    ensures Inspectable(decoded) ==>
              var ops := decoded.value.ops;
              var k := StrictSendIndex(ops);
              && (NoTargetOperation in violations <==> k == |ops|)
              && (k < |ops| ==> forall v :: PaymentReports(v, ops[k], intent) ==> v in violations)
  {
    hide ToStroops, BigIntOf, StrictSendIndex, PaymentReports, TrustlineReports, IsTheSwap, ExactlyTheSwap, FeeWithin,
         Recognized;
    var goOn;
    violations, goOn := CheckPreface(decoded, intent.account, intent.passphrase, MAX_FEE_STROOPS);
    if !goOn { return; }
    var ops := decoded.value.ops;
    var k := StrictSendIndex(ops);
    if k == |ops| {
      NothingWithoutAPayment(ops, intent);
      return violations + [NoTargetOperation];
    }
    var extra := Others(ops, k);
    if intent.allowTrustlineFor.Some? {
      var trust := CheckTrustlines(extra, intent.account, intent.allowTrustlineFor.value);
      SilentTrustlines(trust, extra, intent);
      violations := violations + trust;
      if |extra| > 1 { violations := violations + [TooManyTrustlines]; }
    } else if |ops| != 1 {
      violations := violations + [NotSoleOperation];
      assert extra[0] in extra;
    }
    var payment := CheckPayment(ops[k], intent);
    SilentPayment(payment, ops[k], intent);
    violations := violations + payment;
    SwapAndAtMostOneTrustline(ops, k, intent);
  }

  lemma NothingWithoutAPayment(ops: seq<Operation>, intent: Intent)
    requires StrictSendIndex(ops) == |ops|
    ensures !ExactlyTheSwap(ops, intent)
  {
  }

  lemma SilentTrustlines(trust: seq<Violation>, extra: seq<Operation>, intent: Intent)
    requires intent.allowTrustlineFor.Some?
    requires forall v :: v in trust <==> TrustlineReports(v, extra, intent.account, intent.allowTrustlineFor.value)
    ensures trust == [] <==> forall op :: op in extra ==> IsTheTrustline(op, intent)
    ensures NoTargetOperation !in trust
  {
    if trust != [] {
      var v := trust[0];
      assert v in trust;
    } else {
      assert UnexpectedOperation !in trust && TrustAssetMismatch !in trust && TrustSourceMismatch !in trust;
    }
  }

  /** With the first strict send at k, the shape is: it is the swap, and the others are at most one trustline. */
  lemma SwapAndAtMostOneTrustline(ops: seq<Operation>, k: nat, intent: Intent)
    requires k < |ops| && k == StrictSendIndex(ops)
    ensures ExactlyTheSwap(ops, intent) <==>
            && IsTheSwap(ops[k], intent)
            && |Others(ops, k)| <= 1
            && forall op :: op in Others(ops, k) ==> IsTheTrustline(op, intent)
  {
    hide ToStroops;
    var extra := Others(ops, k);
    if |ops| == 2 {
      assert extra == [ops[1 - k]];
    }
  }

  // ---- The builder ----

  datatype AssetRef = AssetRef(code: string, issuer: string)

  predicate IsNativeRef(ref: AssetRef) {
    ref.code == "XLM" || ref.code == "native"
  }

  /** resolveAsset: None for an asset that needs an issuer and has none. */
  function ResolveAsset(ref: AssetRef, vettedUsdc: Asset): Option<Asset> {
    if IsNativeRef(ref) then Some(Native)
    else if ref.code == "USDC" && ref.issuer == "" then Some(vettedUsdc)
    else if ref.issuer == "" then None
    else Some(Credit(ref.code, ref.issuer))
  }

  const BASE_FEE := 100
  const DEFAULT_INCLUSION_FEE_STROOPS := 10_000

  /** inclusionFeeStroops: the configured bid when it parses to at least the base fee. */
  function InclusionFee(configured: Option<int>): nat {
    if configured.Some? && configured.value >= BASE_FEE then configured.value else DEFAULT_INCLUSION_FEE_STROOPS
  }

  /** A request past the balance preflight, with what the network knows of the account's trustlines. */
  datatype Request = Request(
    account: string, from: AssetRef, to: AssetRef, amount: string, minReceive: string,
    passphrase: string, vettedUsdc: Asset, trusted: Option<set<Asset>>, bid: Option<int>)

  predicate NeedsTrustline(r: Request, dest: Asset) {
    !IsNativeRef(r.to) && (r.trusted.None? || dest !in r.trusted.value)
  }

  /** Operation.changeTrust without a limit takes the largest one. */
  const MAX_LIMIT := "922337203685.4775807"

  function NewTrustline(asset: Asset): Operation {
    ChangeTrust(None, AssetLine(asset), MAX_LIMIT)
  }

  function Payment(r: Request, send: Asset, dest: Asset, sendWire: nat, minWire: nat): Operation {
    PathPaymentStrictSend(None, send, FromI128(sendWire, STELLAR_DECIMALS), r.account,
                          dest, FromI128(minWire, STELLAR_DECIMALS), [])
  }

  /** The envelope of a request: the trustline first when it is missing, one bid per operation. */
  function BuiltEnvelope(r: Request, send: Asset, dest: Asset, sendWire: nat, minWire: nat): Envelope {
    var payment := Payment(r, send, dest, sendWire, minWire);
    var ops := if NeedsTrustline(r, dest) then [NewTrustline(dest), payment] else [payment];
    Classic(r.account, DigitsOf(InclusionFee(r.bid) * |ops|), ops)
  }

  /** Carried out in order from these trustlines, the operations never pay into an asset without one. */
  predicate NeverPaysUntrusted(trusted: set<Asset>, ops: seq<Operation>)
    decreases |ops|
  {
    ops == [] ||
    match ops[0]
    case ChangeTrust(_, AssetLine(asset), _) => NeverPaysUntrusted(trusted + {asset}, ops[1..])
    case PathPaymentStrictSend(_, _, _, _, dest, _, _) =>
      (dest == Native || dest in trusted) && NeverPaysUntrusted(trusted, ops[1..])
    case _ => NeverPaysUntrusted(trusted, ops[1..])
  }

  /** The asset a request names: XLM by two names, the vetted USDC when no issuer is given, else code and issuer. */
  predicate Names(ref: AssetRef, vettedUsdc: Asset, asset: Asset) {
    if ref.code in {"XLM", "native"} then asset == Native
    else if ref.issuer != "" then asset == Credit(ref.code, ref.issuer)
    else ref.code == "USDC" && asset == vettedUsdc
  }

  /**
   The operations of a built swap. The payment is last: all of what is sent and at least what is asked
   for, to the account itself. Before it stands one trustline, for exactly the asset received, if and
   only if that asset is not XLM and the account is unknown or has no line for it. One bid is paid for
   each operation, the configured one from 100 stroops on and 10,000 otherwise.
   */
  ghost predicate IsBuiltSwap(env: Envelope, r: Request, sendWire: nat, minWire: nat) {
    && env.Classic? && env.source == r.account
    && (|env.ops| == 1 || |env.ops| == 2)
    && (exists send, dest :: Names(r.from, r.vettedUsdc, send) && Names(r.to, r.vettedUsdc, dest)
          && IsThePayment(env.ops[|env.ops| - 1], r.account, send, dest, sendWire, minWire)
          && ((exists k :: 0 <= k < |env.ops| && env.ops[k].ChangeTrust?) <==>
                r.to.code !in {"XLM", "native"} && (r.trusted == None || dest !in r.trusted.value))
          && (|env.ops| == 2 ==> env.ops[0] == ChangeTrust(None, AssetLine(dest), "922337203685.4775807")))
    && NeverPaysUntrusted(if r.trusted == None then {} else r.trusted.value, env.ops)
    && (var bid := if r.bid.Some? && r.bid.value >= 100 then r.bid.value else 10_000;
        BigIntOf(env.fee) == Some(bid * |env.ops|))
  }

  /** The one strict send, on the account's own behalf and to itself, without intermediate assets. */
  predicate IsThePayment(op: Operation, account: string, send: Asset, dest: Asset, sendWire: nat, minWire: nat) {
    && op.PathPaymentStrictSend? && op.source == None && op.destination == account && op.path == []
    && op.sendAsset == send && op.destAsset == dest
    && ToStroops(op.sendAmount) == Some(sendWire) && ToStroops(op.destMin) == Some(minWire)
  }

  lemma ResolvesExactly(ref: AssetRef, vettedUsdc: Asset, asset: Asset)
    ensures ResolveAsset(ref, vettedUsdc) == Some(asset) <==> Names(ref, vettedUsdc, asset)
  {
  }

  lemma BuiltIsSwap(r: Request, send: Asset, dest: Asset, sendWire: nat, minWire: nat)
    requires ResolveAsset(r.from, r.vettedUsdc) == Some(send) && ResolveAsset(r.to, r.vettedUsdc) == Some(dest)
    ensures IsBuiltSwap(BuiltEnvelope(r, send, dest, sendWire, minWire), r, sendWire, minWire)
  {
    hide DigitsOf, FromI128, BigIntOf, ToScaled;
    ResolvesExactly(r.from, r.vettedUsdc, send);
    ResolvesExactly(r.to, r.vettedUsdc, dest);
    PrintedAmountPassesGates(sendWire, STELLAR_DECIMALS);
    PrintedAmountPassesGates(minWire, STELLAR_DECIMALS);
    var env := BuiltEnvelope(r, send, dest, sendWire, minWire);
    BigIntOfDigits(DigitsOf(InclusionFee(r.bid) * |env.ops|));
    PaysTrusted(r, send, dest, sendWire, minWire);
  }

  lemma PaysTrusted(r: Request, send: Asset, dest: Asset, sendWire: nat, minWire: nat)
    requires ResolveAsset(r.to, r.vettedUsdc) == Some(dest)
    ensures NeverPaysUntrusted(if r.trusted == None then {} else r.trusted.value,
                               BuiltEnvelope(r, send, dest, sendWire, minWire).ops)
  {
    hide DigitsOf, FromI128;
    var ops := BuiltEnvelope(r, send, dest, sendWire, minWire).ops;
    var trusted := if r.trusted == None then {} else r.trusted.value;
    var payment := Payment(r, send, dest, sendWire, minWire);
    if NeedsTrustline(r, dest) {
      PaysOnce(trusted + {dest}, payment);
      assert ops == [NewTrustline(dest), payment] && ops[1..] == [payment];
    } else {
      PaysOnce(trusted, payment);
      assert ops == [payment];
    }
  }

  lemma PaysOnce(trusted: set<Asset>, op: Operation)
    requires op.PathPaymentStrictSend? && (op.destAsset == Native || op.destAsset in trusted)
    ensures NeverPaysUntrusted(trusted, [op])
  {
    assert [op][1..] == [];
  }

  /**
   buildSdexSwap, decoded again. `sendWire` and `minWire` are the seven-decimal integers the SDK
   encodes the two amount strings as, None when it refuses one.
   */
  method BuildSdexSwap(r: Request, sendWire: Option<nat>, minWire: Option<nat>) returns (built: Option<Envelope>)
    ensures built.Some? <==>
              && ResolveAsset(r.from, r.vettedUsdc).Some? && ResolveAsset(r.to, r.vettedUsdc).Some?
              && sendWire.Some? && minWire.Some?
    ensures built.Some? ==>
              built.value == BuiltEnvelope(r, ResolveAsset(r.from, r.vettedUsdc).value,
                                           ResolveAsset(r.to, r.vettedUsdc).value, sendWire.value, minWire.value)
    ensures built.Some? ==> IsBuiltSwap(built.value, r, sendWire.value, minWire.value)
  {
    hide DigitsOf, FromI128, ResolveAsset, IsBuiltSwap;
    var send, dest := ResolveAsset(r.from, r.vettedUsdc), ResolveAsset(r.to, r.vettedUsdc);
    if send.None? || dest.None? { return None; }
    var needsTrustline := false;
    if !IsNativeRef(r.to) {
      needsTrustline := r.trusted.None? || dest.value !in r.trusted.value;
    }
    var inclusionPerOp := InclusionFee(r.bid);
    var ops: seq<Operation> := [];
    if needsTrustline {
      ops := ops + [NewTrustline(dest.value)];
    }
    if sendWire.None? || minWire.None? { return None; }
    ops := ops + [Payment(r, send.value, dest.value, sendWire.value, minWire.value)];
    built := Some(Classic(r.account, DigitsOf(inclusionPerOp * |ops|), ops));
    BuiltIsSwap(r, send.value, dest.value, sendWire.value, minWire.value);
  }

  /**
   The builder meets the gate, for every intent: its envelope is accepted exactly when the intent is
   the request's account on a network the app signs on, with the assets the builder resolved and
   amounts the SDK encoded as the gate reads them, the trustline it bundles is allowed, and the bid
   times the number of operations stays under the gate's cap. Nothing bounds the configured bid.
   */
  lemma BuilderMeetsGate(r: Request, send: Asset, dest: Asset, sendWire: nat, minWire: nat, intent: Intent)
    requires ResolveAsset(r.to, r.vettedUsdc) == Some(dest) && r.vettedUsdc.Credit?
    ensures Accepts(Some(BuiltEnvelope(r, send, dest, sendWire, minWire)), intent) <==>
            && Recognized(intent.passphrase) && intent.account == r.account
            && intent.sendAsset == send && intent.destAsset == dest
            && ToStroops(intent.sendAmount) == Some(sendWire)
            && ToStroops(intent.destMin).Some? && ToStroops(intent.destMin).value <= minWire
            && (NeedsTrustline(r, dest) ==> intent.allowTrustlineFor == Some(dest))
            && InclusionFee(r.bid) * (if NeedsTrustline(r, dest) then 2 else 1) <= MAX_FEE_STROOPS
  {
    hide DigitsOf, FromI128, BigIntOf, ToScaled, Recognized;
    var n := if NeedsTrustline(r, dest) then 2 else 1;
    PrintedAmountPassesGates(sendWire, STELLAR_DECIMALS);
    PrintedAmountPassesGates(minWire, STELLAR_DECIMALS);
    BigIntOfDigits(DigitsOf(InclusionFee(r.bid) * n));
  }

  // ---- The widget ----

  /** An asset as the swap widget lists it; the issuer is empty when it has none. */
  datatype SwapAsset = SwapAsset(code: string, issuer: string)

  function ToApiRef(a: SwapAsset): AssetRef {
    if a.code == "XLM" then AssetRef("XLM", "") else AssetRef(a.code, a.issuer)
  }

  function ToAssetId(a: SwapAsset): Asset {
    if a.code == "XLM" then Native else Credit(a.code, a.issuer)
  }

  /** XLM itself, or a listed issuer under a code the API does not take for XLM. */
  predicate IsIdentified(a: SwapAsset) {
    a.code == "XLM" || (a.code != "native" && a.issuer != "")
  }

  /** Gate and builder are told of the same asset exactly when the widget identifies it. */
  lemma WidgetAssetsAgreeExactly(a: SwapAsset, vettedUsdc: Asset)
    requires vettedUsdc.Credit? && vettedUsdc.issuer != ""
    ensures ResolveAsset(ToApiRef(a), vettedUsdc) == Some(ToAssetId(a)) <==> IsIdentified(a)
  {
    assert "XLM" != "USDC" && "native" != "USDC";
  }

  /** The intent the swap widget derives for a request: the same strings, the destination trustline allowed. */
  function WidgetIntent(r: Request, from: SwapAsset, to: SwapAsset): Intent {
    Intent(r.account, ToAssetId(from), r.amount, ToAssetId(to), r.minReceive, r.passphrase,
           if ToAssetId(to) == Native then None else Some(ToAssetId(to)))
  }

  /**
   For a canonical request of the widget, whose amounts the SDK encodes as the gate reads them: the
   envelope is accepted exactly when both assets are identified and the bid is at most 50,000
   stroops, or at most 100,000 with no trustline bundled.
   */
  lemma CanonicalSwapsPassTheGate(r: Request, from: SwapAsset, to: SwapAsset, send: Asset, dest: Asset,
                                  sendWire: nat, minWire: nat)
    requires r.from == ToApiRef(from) && r.to == ToApiRef(to) && r.vettedUsdc.Credit? && r.vettedUsdc.issuer != ""
    requires ResolveAsset(r.from, r.vettedUsdc) == Some(send) && ResolveAsset(r.to, r.vettedUsdc) == Some(dest)
    requires Recognized(r.passphrase)
    requires ToStroops(r.amount) == Some(sendWire) && ToStroops(r.minReceive) == Some(minWire)
    ensures Accepts(Some(BuiltEnvelope(r, send, dest, sendWire, minWire)), WidgetIntent(r, from, to)) <==>
            && IsIdentified(from) && IsIdentified(to)
            && InclusionFee(r.bid) <= if NeedsTrustline(r, dest) then 50_000 else MAX_FEE_STROOPS
  {
    hide Accepts, ToStroops, Recognized, BuiltEnvelope, ResolveAsset, IsIdentified, InclusionFee, ToApiRef, ToAssetId;
    BuilderMeetsGate(r, send, dest, sendWire, minWire, WidgetIntent(r, from, to));
    WidgetAssetsAgreeExactly(from, r.vettedUsdc);
    WidgetAssetsAgreeExactly(to, r.vettedUsdc);
    BundledIsCredit(r, dest);
  }

  lemma BundledIsCredit(r: Request, dest: Asset)
    requires ResolveAsset(r.to, r.vettedUsdc) == Some(dest) && r.vettedUsdc.Credit?
    ensures NeedsTrustline(r, dest) ==> dest != Native
  {
  }

  /** One XLM for one USDC of `issuer`, by a wallet that has no trustline for it yet. */
  function FirstUsdc(account: string, issuer: string, bid: int): Request {
    Request.Request(account, AssetRef("XLM", ""), AssetRef("USDC", issuer), "1", "1", PUBLIC,
                    Credit("USDC", issuer), Some({}), Some(bid))
  }

  /** At a bid of 50,000 the first swap into an asset passes the gate; one stroop more and it does not. */
  lemma OneStroopTooMany(account: string, issuer: string)
    requires issuer != ""
    ensures var xlm, usdc := SwapAsset("XLM", ""), SwapAsset("USDC", issuer);
            var fits, over := FirstUsdc(account, issuer, 50_000), FirstUsdc(account, issuer, 50_001);
            var one := 10_000_000;
            && Accepts(Some(BuiltEnvelope(fits, Native, ToAssetId(usdc), one, one)), WidgetIntent(fits, xlm, usdc))
            && !Accepts(Some(BuiltEnvelope(over, Native, ToAssetId(usdc), one, one)), WidgetIntent(over, xlm, usdc))
  {
    hide Accepts, BuiltEnvelope, WidgetIntent, FirstUsdc;
    FirstUsdcFits(account, issuer, 50_000);
    FirstUsdcFits(account, issuer, 50_001);
  }

  lemma FirstUsdcFits(account: string, issuer: string, bid: nat)
    requires issuer != "" && bid >= BASE_FEE
    ensures var xlm, usdc := SwapAsset("XLM", ""), SwapAsset("USDC", issuer);
            var r := FirstUsdc(account, issuer, bid);
            var built := BuiltEnvelope(r, Native, ToAssetId(usdc), 10_000_000, 10_000_000);
            Accepts(Some(built), WidgetIntent(r, xlm, usdc)) <==> bid <= 50_000
  {
    hide Accepts, ToScaled, BuiltEnvelope, WidgetIntent;
    OneUnit();
    CanonicalSwapsPassTheGate(FirstUsdc(account, issuer, bid), SwapAsset("XLM", ""), SwapAsset("USDC", issuer),
                              Native, ToAssetId(SwapAsset("USDC", issuer)), 10_000_000, 10_000_000);
  }
}
