/**
 Decoded transaction envelopes as the browser gates see them, and the checks the swap, submit and
 trustline gates share: passphrase, parse, fee-bump wrapper, source account and fee cap.
 */
module Envelopes {
  import opened Wrappers
  import opened DecimalAmounts

  datatype Asset = Native | Credit(code: string, issuer: string)

  /** What a ChangeTrust trusts: an asset, or a liquidity pool. */
  datatype Line = AssetLine(asset: Asset) | PoolLine

  /**
   A decoded contract value, by what a gate can see of it: its text when it is a string, its items
   when it is an array, its fields when it is an object.
   */
  datatype Value = Value(text: Option<string>, items: Option<seq<Value>>, fields: Option<Request>)

  /** The fields of a submit request, as `===`, `BigInt(v)` and `Number(v)` read them; None when they fail. */
  datatype Request = Request(address: Option<string>, amount: Option<int>, requestType: Option<int>)

  /** Arguments are None when scValToNative throws on them. */
  datatype ContractCall = ContractCall(contract: string, function_: string, args: seq<Option<Value>>)

  /** An operation's source is None when it inherits the transaction's. */
  datatype Operation =
    | PathPaymentStrictSend(source: Option<string>, sendAsset: Asset, sendAmount: string, destination: string,
                            destAsset: Asset, destMin: string, path: seq<Asset>)
    | ChangeTrust(source: Option<string>, line: Line, limit: string)
    | InvokeHostFunction(source: Option<string>, call: Option<ContractCall>)
    | OtherOperation(source: Option<string>)

  datatype Envelope = Classic(source: string, fee: string, ops: seq<Operation>) | FeeBump

  datatype Violation =
    | UnrecognizedNetwork | Unparseable | FeeBumpWrapper | SourceMismatch | FeeInvalid | FeeAboveCap
    | NoTargetOperation | NotSoleOperation | OperationSourceMismatch
    | UnexpectedOperation | TrustAssetMismatch | TrustSourceMismatch | TooManyTrustlines
    | SendAssetMismatch | DestAssetMismatch | SendAmountInvalid | SendAmountMismatch
    | DestMinInvalid | DestMinTooLow | DestinationMismatch
    | NotContractCall | ContractMismatch | FunctionMismatch | TooFewArguments | UndecodableArguments
    | FromMismatch | SpenderMismatch | ToMismatch | RequestsNotList | RequestCountMismatch | RequestMalformed
    | RequestTypeMismatch | RequestAssetMismatch | RequestAmountInvalid | RequestAmountMismatch

  const TESTNET := "Test SDF Network ; September 2015"
  const PUBLIC := "Public Global Stellar Network ; September 2015"

  predicate Recognized(passphrase: string) {
    passphrase == TESTNET || passphrase == PUBLIC
  }

  /** An operation acts for the account when its source is unset or that account. */
  predicate ActsFor(source: Option<string>, account: string) {
    source.None? || source.value == account
  }

  predicate FeeWithin(fee: string, cap: nat) {
    var stroops := BigIntOf(fee);
    stroops.Some? && 0 <= stroops.value <= cap
  }

  /** The envelope both parties may go on to inspect: parsed, and no fee-bump. */
  predicate Inspectable(decoded: Option<Envelope>) {
    decoded.Some? && decoded.value.Classic?
  }

  /** The whole shared preface holds. */
  predicate PrefaceHolds(decoded: Option<Envelope>, account: string, passphrase: string, cap: nat) {
    && Recognized(passphrase)
    && Inspectable(decoded)
    && decoded.value.source == account
    && FeeWithin(decoded.value.fee, cap)
  }

  /** Which of the preface's violations an envelope deserves. */
  predicate PrefaceReports(v: Violation, decoded: Option<Envelope>, account: string, passphrase: string, cap: nat) {
    match v
    case UnrecognizedNetwork => !Recognized(passphrase)
    case Unparseable => decoded.None?
    case FeeBumpWrapper => decoded.Some? && decoded.value.FeeBump?
    case SourceMismatch => Inspectable(decoded) && decoded.value.source != account
    case FeeInvalid =>
      Inspectable(decoded) && (BigIntOf(decoded.value.fee).None? || BigIntOf(decoded.value.fee).value < 0)
    case FeeAboveCap =>
      Inspectable(decoded) && BigIntOf(decoded.value.fee).Some? && BigIntOf(decoded.value.fee).value > cap
    case _ => false
  }

  /**
   The preface every gate starts with. It collects every violation it sees and lets the gate go on
   only when there is an inspectable transaction.
   */
  method CheckPreface(decoded: Option<Envelope>, account: string, passphrase: string, cap: nat)
    returns (violations: seq<Violation>, goOn: bool)
    ensures goOn <==> Inspectable(decoded)
    ensures forall v :: v in violations <==> PrefaceReports(v, decoded, account, passphrase, cap)
    ensures violations == [] <==> PrefaceHolds(decoded, account, passphrase, cap)
  {
    hide BigIntOf;
    violations := [];
    if !Recognized(passphrase) { violations := violations + [UnrecognizedNetwork]; }
    if decoded.None? {
      return violations + [Unparseable], false;
    }
    if decoded.value.FeeBump? {
      return violations + [FeeBumpWrapper], false;
    }
    var tx := decoded.value;
    if tx.source != account { violations := violations + [SourceMismatch]; }
    var stroops := BigIntOf(tx.fee);
    if stroops.None? || stroops.value < 0 {
      violations := violations + [FeeInvalid];
    } else if stroops.value > cap {
      violations := violations + [FeeAboveCap];
    }
    goOn := true;
  }

  /** changeTrustMatches: never for native, never for a pool, else code and issuer. */
  predicate TrustMatches(line: Line, id: Asset) {
    match line
    case PoolLine => false
    case AssetLine(asset) => id != Native && asset != Native && asset == id
  }
}
