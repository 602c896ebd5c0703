/**
 The Blend deposit and withdraw paths: the browser gates on a decoded `submit` invocation, and the
 API builder that assembles it from a simulation.
 */
module SubmitGate {
  import opened Wrappers
  import opened DecimalAmounts
  import opened Envelopes
  import opened AmountReadings
  import SwapGate

  const MAX_DEPOSIT_FEE_STROOPS: nat := 20_000_000
  const SUPPLY_COLLATERAL := 2
  const WITHDRAW_COLLATERAL := 3

  datatype Intent = Intent(account: string, pool: string, sac: string, amount: string, decimals: int,
                           passphrase: string)

  predicate IsTheUser(arg: Option<Value>, account: string) {
    arg.Some? && arg.value.text == Some(account)
  }

  /** One request of the expected type, against the expected asset, for the exact amount. */
  predicate IsTheRequest(request: Request, intent: Intent, requestType: int) {
    var expected := ToScaled(intent.amount, intent.decimals);
    && request.requestType == Some(requestType)
    && request.address == Some(intent.sac)
    && expected.Some? && request.amount.Some? && request.amount.value == expected.value
  }

  predicate OneRequest(arg: Option<Value>, intent: Intent, requestType: int) {
    && arg.Some? && arg.value.items.Some? && |arg.value.items.value| == 1
    && arg.value.items.value[0].fields.Some?
    && IsTheRequest(arg.value.items.value[0].fields.value, intent, requestType)
  }

  predicate IsTheCall(call: ContractCall, intent: Intent, requestType: int) {
    && call.contract == intent.pool && call.function_ == "submit" && |call.args| >= 4
    && IsTheUser(call.args[0], intent.account) && IsTheUser(call.args[1], intent.account)
    && IsTheUser(call.args[2], intent.account) && OneRequest(call.args[3], intent, requestType)
  }

  /** One invocation of `submit` on the pool, entirely on the user's account, carrying that one request. */
  predicate Accepts(decoded: Option<Envelope>, intent: Intent, requestType: int) {
    && PrefaceHolds(decoded, intent.account, intent.passphrase, MAX_DEPOSIT_FEE_STROOPS)
    && var ops := decoded.value.ops;
    && |ops| == 1 && ops[0].InvokeHostFunction? && ActsFor(ops[0].source, intent.account)
    && ops[0].call.Some? && IsTheCall(ops[0].call.value, intent, requestType)
  }

  // ---- The gate ----

  /** ops.find(...): the first invocation, or |ops|. */
  function InvokeIndex(ops: seq<Operation>): (k: nat)
    ensures k <= |ops|
    ensures k < |ops| ==> ops[k].InvokeHostFunction?
    ensures forall j :: 0 <= j < k ==> !ops[j].InvokeHostFunction?
  {
    if ops == [] || ops[0].InvokeHostFunction? then 0 else 1 + InvokeIndex(ops[1..])
  }

  /** The checks on the decoded request. */
  method CheckRequest(request: Request, intent: Intent, requestType: int) returns (violations: seq<Violation>)
    ensures violations == [] <==> IsTheRequest(request, intent, requestType)
    ensures RequestTypeMismatch in violations <==> request.requestType != Some(requestType)
    ensures RequestAssetMismatch in violations <==> request.address != Some(intent.sac)
  {
    hide ToScaled;
    violations := [];
    if request.requestType != Some(requestType) { violations := violations + [RequestTypeMismatch]; }
    if request.address != Some(intent.sac) { violations := violations + [RequestAssetMismatch]; }
    var expected := ToScaled(intent.amount, intent.decimals);
    if expected.None? || request.amount.None? {
      violations := violations + [RequestAmountInvalid];
    } else if request.amount.value != expected.value {
      violations := violations + [RequestAmountMismatch];
    }
  }

  /** The checks on the arguments of the call. */
  method CheckArguments(args: seq<Option<Value>>, intent: Intent, requestType: int) returns (violations: seq<Violation>)
    ensures violations == [] <==>
              && |args| >= 4
              && IsTheUser(args[0], intent.account) && IsTheUser(args[1], intent.account)
              && IsTheUser(args[2], intent.account)
              && OneRequest(args[3], intent, requestType)
  {
    hide IsTheRequest;
    if |args| < 4 { return [TooFewArguments]; }
    if args[0].None? || args[1].None? || args[2].None? || args[3].None? { return [UndecodableArguments]; }
    violations := [];
    if args[0].value.text != Some(intent.account) { violations := violations + [FromMismatch]; }
    if args[1].value.text != Some(intent.account) { violations := violations + [SpenderMismatch]; }
    if args[2].value.text != Some(intent.account) { violations := violations + [ToMismatch]; }
    var requests := args[3].value.items;
    if requests.None? { return violations + [RequestsNotList]; }
    if |requests.value| != 1 { violations := violations + [RequestCountMismatch]; }
    if |requests.value| == 0 || requests.value[0].fields.None? { return violations + [RequestMalformed]; }
    var onRequest := CheckRequest(requests.value[0].fields.value, intent, requestType);
    violations := violations + onRequest;
  }

  /**
   validateSubmitXdr on a decoded envelope, for either expected request type: silent exactly on the
   one invocation the user asked for.
   */
  method ValidateSubmit(decoded: Option<Envelope>, intent: Intent, requestType: int)
    returns (violations: seq<Violation>)
    ensures violations == [] <==> Accepts(decoded, intent, requestType)
    ensures forall v :: PrefaceReports(v, decoded, intent.account, intent.passphrase, MAX_DEPOSIT_FEE_STROOPS) ==>
              v in violations
  {
    hide OneRequest, IsTheUser, FeeWithin, Recognized, BigIntOf, PrefaceReports;
    var goOn;
    violations, goOn := CheckPreface(decoded, intent.account, intent.passphrase, MAX_DEPOSIT_FEE_STROOPS);
    if !goOn { return; }
    var ops := decoded.value.ops;
    var k := InvokeIndex(ops);
    if k == |ops| { return violations + [NoTargetOperation]; }
    if |ops| != 1 { violations := violations + [NotSoleOperation]; }
    if !ActsFor(ops[k].source, intent.account) { violations := violations + [OperationSourceMismatch]; }
    if ops[k].call.None? { return violations + [NotContractCall]; }
    var call := ops[k].call.value;
    if call.contract != intent.pool { violations := violations + [ContractMismatch]; }
    if call.function_ != "submit" { violations := violations + [FunctionMismatch]; }
    var onArguments := CheckArguments(call.args, intent, requestType);
    violations := violations + onArguments;
  }

  // ---- The builder ----

  const I128_LIMIT: int := 0x8000_0000_0000_0000_0000_0000_0000_0000

  /** A request to either Blend builder, past pool resolution and the preflights. */
  datatype Order = Order(
    account: string, pool: string, sac: string, amount: string, decimals: nat, passphrase: string,
    requestType: int, bid: Option<int>)

  /** Math.ceil(minResourceFee * 1.5) */
  function PaddedResourceFee(minResourceFee: nat): (padded: nat)
    ensures 2 * padded - 1 <= 3 * minResourceFee <= 2 * padded
  {
    (3 * minResourceFee + 1) / 2
  }

  function TotalFee(bid: Option<int>, minResourceFee: nat): nat {
    SwapGate.InclusionFee(bid) + PaddedResourceFee(minResourceFee)
  }

  function TextValue(s: string): Option<Value> {
    Some(Value(Some(s), None, None))
  }

  function SubmitEnvelope(o: Order, amount: int, minResourceFee: nat): Envelope {
    var request := Request(Some(o.sac), Some(amount), Some(o.requestType));
    var requests := Value(None, Some([Value(None, None, Some(request))]), None);
    var args := [TextValue(o.account), TextValue(o.account), TextValue(o.account), Some(requests)];
    Classic(o.account, DigitsOf(TotalFee(o.bid, minResourceFee)),
            [InvokeHostFunction(None, Some(ContractCall(o.pool, "submit", args)))])
  }

  function IntentOf(o: Order): Intent {
    Intent(o.account, o.pool, o.sac, o.amount, o.decimals, o.passphrase)
  }

  /**
   A built submit is accepted exactly when the network is one the app signs on, the padded fee stays
   under the cap, and the gate reads the amount that was put on the wire.
   */
  lemma SubmitBuilderMeetsGate(o: Order, amount: int, minResourceFee: nat)
    ensures Accepts(Some(SubmitEnvelope(o, amount, minResourceFee)), IntentOf(o), o.requestType) <==>
            && Recognized(o.passphrase)
            && TotalFee(o.bid, minResourceFee) <= MAX_DEPOSIT_FEE_STROOPS
            && ToScaled(o.amount, o.decimals).Some? && ToScaled(o.amount, o.decimals).value == amount
  {
    hide DigitsOf, BigIntOf, ToScaled, PaddedResourceFee, SwapGate.InclusionFee, Recognized;
    BigIntOfDigits(DigitsOf(TotalFee(o.bid, minResourceFee)));
  }

  /**
   A built submit, field by field: one call on the pool, from, by and to the account, with one request; and
   a fee of the bid, the configured one from 100 stroops on and 10,000 otherwise, plus half as much again as
   the simulated resource fee, rounded up.
   */
  ghost predicate IsBuiltSubmit(env: Envelope, o: Order, amount: int, minResourceFee: nat) {
    && env.Classic? && env.source == o.account && |env.ops| == 1
    && (exists call: ContractCall ::
          && env.ops[0] == InvokeHostFunction(None, Some(call))
          && call.contract == o.pool && call.function_ == "submit" && |call.args| == 4
          && (forall n :: 0 <= n < 3 ==> call.args[n].Some? && call.args[n].value.text == Some(o.account))
          && call.args[3].Some? && call.args[3].value.items.Some? && |call.args[3].value.items.value| == 1
          && call.args[3].value.items.value[0].fields ==
             Some(Request(Some(o.sac), Some(amount), Some(o.requestType))))
    && (exists fee: int ::
          && BigIntOf(env.fee) == Some(fee)
          && var padded := fee - if o.bid.Some? && o.bid.value >= 100 then o.bid.value else 10_000;
             2 * padded - 1 <= 3 * minResourceFee <= 2 * padded)
  }

  lemma BuiltIsSubmit(o: Order, amount: int, minResourceFee: nat)
    ensures IsBuiltSubmit(SubmitEnvelope(o, amount, minResourceFee), o, amount, minResourceFee)
  {
    hide DigitsOf, BigIntOf;
    var env := SubmitEnvelope(o, amount, minResourceFee);
    var fee: int := TotalFee(o.bid, minResourceFee);
    BigIntOfDigits(DigitsOf(TotalFee(o.bid, minResourceFee)));
    assert BigIntOf(env.fee) == Some(fee);
    var call := env.ops[0].call.value;
    assert env.ops[0] == InvokeHostFunction(None, Some(call));
  }

  /**
   The tail both builders share, decoded again: nothing without a successful simulation or a readable
   amount, and otherwise an envelope that the gate accepts exactly when the network is one the app
   signs on, the fee is under the cap, the gate takes the amount as typed and the builder read the
   same number from it.
   */
  method BuildSubmit(o: Order, minResourceFee: Option<nat>) returns (built: Option<Envelope>)
    requires o.decimals <= 22
    ensures built.Some? <==>
              var amount := ToI128(o.amount, o.decimals);
              amount.Some? && -I128_LIMIT <= amount.value < I128_LIMIT && minResourceFee.Some?
    ensures built.Some? ==> built.value == SubmitEnvelope(o, ToI128(o.amount, o.decimals).value, minResourceFee.value)
    ensures built.Some? ==>
              IsBuiltSubmit(built.value, o, ToI128(o.amount, o.decimals).value, minResourceFee.value)
    ensures built.Some? ==>
              (Accepts(built, IntentOf(o), o.requestType) <==>
               && Recognized(o.passphrase)
               && TotalFee(o.bid, minResourceFee.value) <= MAX_DEPOSIT_FEE_STROOPS
               && ToScaled(o.amount, o.decimals).Some?
               && ReadsAlike(o.amount, o.decimals))
  {
    hide Accepts, SubmitEnvelope, IsBuiltSubmit, ToScaled, ToI128, TotalFee, Recognized, ReadsAlike;
    var amount := ToI128(o.amount, o.decimals);
    if amount.None? || !(-I128_LIMIT <= amount.value < I128_LIMIT) { return None; }
    if minResourceFee.None? { return None; }
    built := Some(SubmitEnvelope(o, amount.value, minResourceFee.value));
    SubmitBuilderMeetsGate(o, amount.value, minResourceFee.value);
    BuiltIsSubmit(o, amount.value, minResourceFee.value);
    if ToScaled(o.amount, o.decimals).Some? {
      ReadingsAgreeExactly(o.amount, o.decimals);
    }
  }
}
