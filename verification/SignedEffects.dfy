/**
 What a signature that a gate lets through can do. An envelope is a list of effects; the gates accept
 exactly those whose effects are the ones the user asked for.
 */
module SignedEffects {
  import opened Wrappers
  import opened DecimalAmounts
  import opened Envelopes
  import SwapGate
  import SubmitGate

  /** What one operation does, and to whom. */
  datatype Effect =
    | Spends(actor: string, asset: Asset, stroops: Option<nat>)
    | Receives(actor: string, asset: Asset, atLeast: Option<nat>)
    | Trusts(actor: string, line: Line)
    | Calls(actor: string, call: Option<ContractCall>)
    | Unknown(actor: string)

  /** Without a source of its own, an operation is the transaction's. */
  function ActorOf(source: Option<string>, txSource: string): string {
    match source
    case None => txSource
    case Some(s) => s
  }

  function EffectsOf(op: Operation, txSource: string): seq<Effect> {
    match op
    case PathPaymentStrictSend(source, send, amount, to, dest, min, _) =>
      [Spends(ActorOf(source, txSource), send, ToScaled(amount, 7)), Receives(to, dest, ToScaled(min, 7))]
    case ChangeTrust(source, line, _) => [Trusts(ActorOf(source, txSource), line)]
    case InvokeHostFunction(source, call) => [Calls(ActorOf(source, txSource), call)]
    case OtherOperation(source) => [Unknown(ActorOf(source, txSource))]
  }

  function AllEffects(ops: seq<Operation>, txSource: string): seq<Effect> {
    if ops == [] then [] else EffectsOf(ops[0], txSource) + AllEffects(ops[1..], txSource)
  }

  /** On one of the two networks, the account's own transaction, for at most this fee. */
  predicate IsOwnTransaction(env: Envelope, account: string, passphrase: string, cap: nat) {
    && (passphrase == "Test SDF Network ; September 2015"
        || passphrase == "Public Global Stellar Network ; September 2015")
    && env.Classic? && env.source == account
    && exists fee: nat :: BigIntOf(env.fee) == Some(fee) && fee <= cap
  }

  lemma PrefaceExactly(decoded: Option<Envelope>, account: string, passphrase: string, cap: nat)
    ensures PrefaceHolds(decoded, account, passphrase, cap) <==>
            decoded.Some? && IsOwnTransaction(decoded.value, account, passphrase, cap)
  {
    hide BigIntOf;
    if PrefaceHolds(decoded, account, passphrase, cap) {
      var fee: nat := BigIntOf(decoded.value.fee).value;
      assert BigIntOf(decoded.value.fee) == Some(fee);
    }
  }

  /** The account spends exactly what it meant to, and itself receives at least what it asked for. */
  ghost predicate SwapOnly(effects: seq<Effect>, intent: SwapGate.Intent) {
    exists amount: nat, least: nat, asked: nat ::
      && ToScaled(intent.sendAmount, 7) == Some(amount) && ToScaled(intent.destMin, 7) == Some(asked) && least >= asked
      && effects == [Spends(intent.account, intent.sendAsset, Some(amount)),
                     Receives(intent.account, intent.destAsset, Some(least))]
  }

  /** The account trusts the one asset it said it would. */
  ghost predicate TrustOnly(effects: seq<Effect>, intent: SwapGate.Intent) {
    exists code, issuer ::
      && intent.allowTrustlineFor == Some(Credit(code, issuer))
      && effects == [Trusts(intent.account, AssetLine(Credit(code, issuer)))]
  }

  /** The swap alone, or with that trustline before or after it. */
  ghost predicate OnlySwaps(effects: seq<Effect>, intent: SwapGate.Intent) {
    || SwapOnly(effects, intent)
    || (|effects| == 3 && TrustOnly(effects[..1], intent) && SwapOnly(effects[1..], intent))
    || (|effects| == 3 && SwapOnly(effects[..2], intent) && TrustOnly(effects[2..], intent))
  }

  lemma OneMoreOperation(op: Operation, rest: seq<Operation>, txSource: string)
    ensures AllEffects([op] + rest, txSource) == EffectsOf(op, txSource) + AllEffects(rest, txSource)
  {
    assert ([op] + rest)[1..] == rest;
  }

  lemma NoOperations(ops: seq<Operation>, txSource: string)
    ensures AllEffects(ops, txSource) == [] <==> ops == []
  {
  }

  /** The effects tell the operations: a first spend is a payment, a first trust a trustline. */
  lemma FirstEffect(ops: seq<Operation>, txSource: string, effects: seq<Effect>)
    requires AllEffects(ops, txSource) == effects && effects != []
    ensures ops != []
    ensures effects[0].Spends? ==>
              && ops[0].PathPaymentStrictSend? && |effects| >= 2 && effects[..2] == EffectsOf(ops[0], txSource)
              && AllEffects(ops[1..], txSource) == effects[2..]
    ensures effects[0].Trusts? ==>
              && ops[0].ChangeTrust? && effects[..1] == EffectsOf(ops[0], txSource)
              && AllEffects(ops[1..], txSource) == effects[1..]
  {
    hide ToScaled;
    var first := EffectsOf(ops[0], txSource);
    assert effects == first + AllEffects(ops[1..], txSource);
    assert effects[0] == first[0] && effects[..|first|] == first;
    assert effects[|first|..] == AllEffects(ops[1..], txSource);
  }

  lemma PaymentEffects(op: Operation, intent: SwapGate.Intent)
    requires op.PathPaymentStrictSend?
    ensures SwapGate.IsTheSwap(op, intent) <==> SwapOnly(EffectsOf(op, intent.account), intent)
  {
    hide ToScaled;
    var es := EffectsOf(op, intent.account);
    assert es[0] == Spends(ActorOf(op.source, intent.account), op.sendAsset, ToScaled(op.sendAmount, 7));
    assert es[1] == Receives(op.destination, op.destAsset, ToScaled(op.destMin, 7));
    if SwapGate.IsTheSwap(op, intent) {
      var amount: nat := ToScaled(op.sendAmount, 7).value;
      var least: nat, asked: nat := ToScaled(op.destMin, 7).value, ToScaled(intent.destMin, 7).value;
      assert es == [Spends(intent.account, intent.sendAsset, Some(amount)),
                    Receives(intent.account, intent.destAsset, Some(least))];
    }
  }

  lemma TrustlineEffects(op: Operation, intent: SwapGate.Intent)
    requires op.ChangeTrust?
    ensures SwapGate.IsTheTrustline(op, intent) <==> TrustOnly(EffectsOf(op, intent.account), intent)
  {
    var es := EffectsOf(op, intent.account);
    assert es[0] == Trusts(ActorOf(op.source, intent.account), op.line);
    if SwapGate.IsTheTrustline(op, intent) {
      var a := intent.allowTrustlineFor.value;
      assert intent.allowTrustlineFor == Some(Credit(a.code, a.issuer));
    }
  }

  lemma SwapIsTwo(effects: seq<Effect>, intent: SwapGate.Intent)
    requires SwapOnly(effects, intent)
    ensures |effects| == 2 && effects[0].Spends?
  {
  }

  lemma TrustIsOne(effects: seq<Effect>, intent: SwapGate.Intent)
    requires TrustOnly(effects, intent)
    ensures |effects| == 1 && effects[0].Trusts?
  {
  }

  lemma SwapOperations(ops: seq<Operation>, intent: SwapGate.Intent)
    ensures SwapGate.ExactlyTheSwap(ops, intent) ==> OnlySwaps(AllEffects(ops, intent.account), intent)
  {
    hide ToScaled, SwapOnly, TrustOnly, SwapGate.IsTheSwap, SwapGate.IsTheTrustline, EffectsOf, AllEffects;
    var me := intent.account;
    if |ops| == 1 && SwapGate.IsTheSwap(ops[0], intent) {
      IsPayment(ops[0], intent);
      OneOperation(ops, me);
    } else if |ops| == 2 && SwapGate.IsTheTrustline(ops[0], intent) && SwapGate.IsTheSwap(ops[1], intent) {
      IsTrust(ops[0], intent);
      IsPayment(ops[1], intent);
      TwoOperations(ops, me);
    } else if |ops| == 2 && SwapGate.IsTheSwap(ops[0], intent) && SwapGate.IsTheTrustline(ops[1], intent) {
      IsPayment(ops[0], intent);
      IsTrust(ops[1], intent);
      TwoOperations(ops, me);
    }
  }

  lemma OneOperation(ops: seq<Operation>, txSource: string)
    requires |ops| == 1
    ensures AllEffects(ops, txSource) == EffectsOf(ops[0], txSource)
  {
    assert ops == [ops[0]] + [];
    OneMoreOperation(ops[0], [], txSource);
    NoOperations([], txSource);
  }

  lemma TwoOperations(ops: seq<Operation>, txSource: string)
    requires |ops| == 2
    ensures var a, b, all := EffectsOf(ops[0], txSource), EffectsOf(ops[1], txSource), AllEffects(ops, txSource);
            all == a + b && all[..|a|] == a && all[|a|..] == b
  {
    hide EffectsOf, AllEffects;
    assert ops == [ops[0]] + [ops[1]];
    OneMoreOperation(ops[0], [ops[1]], txSource);
    OneOperation([ops[1]], txSource);
  }

  lemma IsPayment(op: Operation, intent: SwapGate.Intent)
    requires SwapGate.IsTheSwap(op, intent)
    ensures SwapOnly(EffectsOf(op, intent.account), intent) && |EffectsOf(op, intent.account)| == 2
  {
    hide ToScaled;
    PaymentEffects(op, intent);
  }

  lemma IsTrust(op: Operation, intent: SwapGate.Intent)
    requires SwapGate.IsTheTrustline(op, intent)
    ensures TrustOnly(EffectsOf(op, intent.account), intent) && |EffectsOf(op, intent.account)| == 1
  {
    TrustlineEffects(op, intent);
  }

  /** The first operations of an envelope whose effects begin with the swap. */
  lemma SwapComesFirst(ops: seq<Operation>, intent: SwapGate.Intent, effects: seq<Effect>)
    requires AllEffects(ops, intent.account) == effects && |effects| >= 2 && SwapOnly(effects[..2], intent)
    ensures ops != [] && SwapGate.IsTheSwap(ops[0], intent) && AllEffects(ops[1..], intent.account) == effects[2..]
  {
    hide ToScaled, SwapOnly, SwapGate.IsTheSwap, EffectsOf, AllEffects;
    SwapIsTwo(effects[..2], intent);
    FirstEffect(ops, intent.account, effects);
    PaymentEffects(ops[0], intent);
  }

  lemma TrustComesFirst(ops: seq<Operation>, intent: SwapGate.Intent, effects: seq<Effect>)
    requires AllEffects(ops, intent.account) == effects && |effects| >= 1 && TrustOnly(effects[..1], intent)
    ensures ops != [] && SwapGate.IsTheTrustline(ops[0], intent) && AllEffects(ops[1..], intent.account) == effects[1..]
  {
    hide ToScaled, TrustOnly, SwapGate.IsTheTrustline, EffectsOf, AllEffects;
    TrustIsOne(effects[..1], intent);
    FirstEffect(ops, intent.account, effects);
    TrustlineEffects(ops[0], intent);
  }

  lemma SwapEffects(ops: seq<Operation>, intent: SwapGate.Intent)
    requires OnlySwaps(AllEffects(ops, intent.account), intent)
    ensures SwapGate.ExactlyTheSwap(ops, intent)
  {
    hide ToScaled, SwapOnly, TrustOnly, SwapGate.IsTheSwap, SwapGate.IsTheTrustline, EffectsOf, AllEffects;
    var me := intent.account;
    var effects := AllEffects(ops, me);
    if SwapOnly(effects, intent) {
      SwapIsTwo(effects, intent);
      assert effects[..2] == effects && effects[2..] == [];
      SwapComesFirst(ops, intent, effects);
      NoOperations(ops[1..], me);
    } else if TrustOnly(effects[..1], intent) && SwapOnly(effects[1..], intent) {
      TrustComesFirst(ops, intent, effects);
      assert effects[1..][..2] == effects[1..] && effects[1..][2..] == [];
      SwapComesFirst(ops[1..], intent, effects[1..]);
      NoOperations(ops[1..][1..], me);
    } else {
      SwapComesFirst(ops, intent, effects);
      assert effects[2..][..1] == effects[2..] && effects[2..][1..] == [];
      TrustComesFirst(ops[1..], intent, effects[2..]);
      NoOperations(ops[1..][1..], me);
    }
  }

  /**
   The swap gate in terms of effects: it lets through exactly the account's own transactions on a known
   network, for a fee of at most 100,000 stroops, that do the swap and at most the announced trustline.
   */
  lemma SwapGateProtects(decoded: Option<Envelope>, intent: SwapGate.Intent)
    ensures SwapGate.Accepts(decoded, intent) <==>
            && decoded.Some? && IsOwnTransaction(decoded.value, intent.account, intent.passphrase, 100_000)
            && OnlySwaps(AllEffects(decoded.value.ops, decoded.value.source), intent)
  {
    hide PrefaceHolds, SwapGate.ExactlyTheSwap, OnlySwaps, AllEffects;
    PrefaceExactly(decoded, intent.account, intent.passphrase, 100_000);
    if decoded.Some? && decoded.value.Classic? {
      SwapOperations(decoded.value.ops, intent);
      if OnlySwaps(AllEffects(decoded.value.ops, intent.account), intent) {
        SwapEffects(decoded.value.ops, intent);
      }
    }
  }

  /** One call of `submit` on the pool with three times the account and one request of the type, asset and amount. */
  ghost predicate SubmitOnly(effects: seq<Effect>, intent: SubmitGate.Intent, requestType: int) {
    exists call: ContractCall, amount: nat ::
      && effects == [Calls(intent.account, Some(call))]
      && ToScaled(intent.amount, intent.decimals) == Some(amount)
      && call.contract == intent.pool && call.function_ == "submit" && |call.args| >= 4
      && (forall n :: 0 <= n < 3 ==> call.args[n].Some? && call.args[n].value.text == Some(intent.account))
      && call.args[3].Some? && call.args[3].value.items.Some? && |call.args[3].value.items.value| == 1
      && call.args[3].value.items.value[0].fields == Some(Request(Some(intent.sac), Some(amount), Some(requestType)))
  }

  lemma CallsOnly(ops: seq<Operation>, account: string, call: ContractCall)
    ensures AllEffects(ops, account) == [Calls(account, Some(call))] <==>
            |ops| == 1 && ops[0].InvokeHostFunction? && ActsFor(ops[0].source, account) && ops[0].call == Some(call)
  {
    hide ToScaled;
    if ops != [] {
      var es := EffectsOf(ops[0], account);
      NoOperations(ops[1..], account);
      assert AllEffects(ops, account) == es + AllEffects(ops[1..], account);
      assert (es + AllEffects(ops[1..], account))[0] == es[0];
      if AllEffects(ops[1..], account) == [] { assert es + [] == es; }
    }
  }

  lemma CallExactly(call: ContractCall, intent: SubmitGate.Intent, requestType: int)
    ensures SubmitGate.IsTheCall(call, intent, requestType) <==>
            SubmitOnly([Calls(intent.account, Some(call))], intent, requestType)
  {
    hide ToScaled;
    var es := [Calls(intent.account, Some(call))];
    if SubmitGate.IsTheCall(call, intent, requestType) {
      var amount: nat := ToScaled(intent.amount, intent.decimals).value;
      var request := Request(Some(intent.sac), Some(amount), Some(requestType));
      assert call.args[3].value.items.value[0].fields == Some(request);
    }
    if SubmitOnly(es, intent, requestType) {
      var c: ContractCall, amount: nat :| es == [Calls(intent.account, Some(c))]
        && ToScaled(intent.amount, intent.decimals) == Some(amount)
        && c.contract == intent.pool && c.function_ == "submit" && |c.args| >= 4
        && (forall n :: 0 <= n < 3 ==> c.args[n].Some? && c.args[n].value.text == Some(intent.account))
        && c.args[3].Some? && c.args[3].value.items.Some? && |c.args[3].value.items.value| == 1
        && c.args[3].value.items.value[0].fields == Some(Request(Some(intent.sac), Some(amount), Some(requestType)));
      assert es[0] == Calls(intent.account, Some(c));
    }
  }

  /** The deposit and withdraw gates likewise: one call, of request type 2 or 3, and a fee of at most 2 XLM. */
  lemma SubmitGateProtects(decoded: Option<Envelope>, intent: SubmitGate.Intent, requestType: int)
    ensures SubmitGate.Accepts(decoded, intent, requestType) <==>
            && decoded.Some? && IsOwnTransaction(decoded.value, intent.account, intent.passphrase, 20_000_000)
            && SubmitOnly(AllEffects(decoded.value.ops, decoded.value.source), intent, requestType)
    ensures SubmitGate.SUPPLY_COLLATERAL == 2 && SubmitGate.WITHDRAW_COLLATERAL == 3
  {
    hide PrefaceHolds, SubmitGate.IsTheCall, AllEffects;
    PrefaceExactly(decoded, intent.account, intent.passphrase, 20_000_000);
    if decoded.Some? && decoded.value.Classic? {
      var effects := AllEffects(decoded.value.ops, intent.account);
      if SubmitOnly(effects, intent, requestType) {
        var call :| effects == [Calls(intent.account, Some(call))];
        CallsOnly(decoded.value.ops, intent.account, call);
        CallExactly(call, intent, requestType);
      }
      if SubmitGate.Accepts(decoded, intent, requestType) {
        var call := decoded.value.ops[0].call.value;
        CallsOnly(decoded.value.ops, intent.account, call);
        CallExactly(call, intent, requestType);
      }
    }
  }
}
