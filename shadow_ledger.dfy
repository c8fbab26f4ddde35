/**
 * The client-side bookkeeping of scripts/utils.ts: reading the encrypted
 * plaintext balance, and what deposit, withdraw, send and retrieve compute
 * and submit. Chain reads (privateBalanceOf, getNonce, getSendRequest) are
 * parameters; the Groth16 provers are function parameters; the contract
 * calls are returned as values instead of being sent.
 */
module ShadowLedger {
  import opened Wrappers
  import opened Calldata
  import opened Crypto

  type Address = string
  type Token = string
  /** A public signal of a proof, as snarkjs gives it (decimal text). */
  type Signal = string

  const ZeroAddress: Address := "0x0000000000000000000000000000000000000000"

  /** Witnesses of the two circuits, with the source's field names. */
  datatype CircuitInput =
    | ReceiverInput(receiverBalanceBeforeTransfer: int, amount: int)
    | SenderInput(sender: Address, senderBalanceBeforeTransfer: int, amount: int, nonce: nat)

  /** What `snarkjs.groth16.prove` returns. */
  datatype Groth16Output = Groth16Output(proof: SnarkProof, publicSignals: seq<Signal>)

  /**
   * Witness calculation and proving for one circuit: None when either
   * throws, as they do for a witness the circuit's constraints reject.
   */
  type Prover = CircuitInput -> Option<Groth16Output>

  /** The prover accepts the witness and returns a proof with every coordinate present. */
  predicate Proves(prove: Prover, input: CircuitInput)
  {
    prove(input).Some? && HasCoordinates(prove(input).value.proof)
  }

  /** The value genSenderProof / genReceiverProof resolve to. */
  datatype ProofBundle = ProofBundle(solidityProof: string, inputs: seq<Signal>)

  datatype Error = DecryptFailed | ProveFailed | Serialise(cause: EncodeError)

  /** One element of the array passed to `createRequest`. */
  datatype SendRequest = SendRequest(
    recipient: Address,
    denomination: Token,
    dealAddress: Address,
    dealId: int,
    oracleAddress: Address,
    oracleOwner: Address,
    oracleKey: int,
    oracleValue: int,
    unlockSender: int,
    unlockReceiver: int,
    privateNewBalance: Blob,
    privateSenderAmount: Blob,
    privateReceiverAmount: Blob,
    proof: string,
    input: seq<Signal>)

  /** A contract call the helpers submit. */
  datatype ContractCall =
    | Deposit(token: Token, amount: int, privateNewBalance: Blob, proof: string, input: seq<Signal>)
    | Withdraw(token: Token, amount: int, privateNewBalance: Blob, proof: string, input: seq<Signal>)
    | CreateRequest(requests: seq<SendRequest>)
    | AcceptRequest(idHash: Signal, privateNewBalance: Blob, proof: string, input: seq<Signal>)

  /** A call signed by `from` (`verifierContract.connect(account)`). */
  datatype Transaction = Transaction(from: Address, call: ContractCall)

  /** A submitted transaction and the request id the helper returns. */
  datatype Settlement = Settlement(tx: Transaction, requestId: Option<Signal>)

  /** `inputs[i]`: an absent element is `undefined`, not an error. */
  function SignalAt(inputs: seq<Signal>, i: nat): (r: Option<Signal>)
    ensures r.Some? <==> i < |inputs|
    ensures r.Some? ==> r.value == inputs[i]
  {
    if i < |inputs| then Some(inputs[i]) else None
  }

  /** Position of the request id among the sender circuit's public signals. */
  const RequestIdSignal: nat := 4

  /**
   * genSenderProof / genReceiverProof: prove, then serialise the proof and
   * keep the public signals.
   */
  function GenProof(prove: Prover, input: CircuitInput): (r: Result<ProofBundle, Error>)
    ensures r.Success? <==> Proves(prove, input)
    ensures prove(input).None? ==> r == Failure(ProveFailed)
    ensures prove(input).Some? && !Proves(prove, input) ==> r == Failure(Serialise(MissingCoordinate))
    ensures r.Success? ==>
      && r.value.inputs == prove(input).value.publicSignals
      && ProofToSolidityInput(prove(input).value.proof) == Success(r.value.solidityProof)
  {
    match prove(input)
    case None => Failure(ProveFailed)
    case Some(out) =>
      match ProofToSolidityInput(out.proof)
      case Success(s) => Success(ProofBundle(s, out.publicSignals))
      case Failure(e) => Failure(Serialise(e))
  }

  /**
   * `getPrivateBalance`: 0 when nothing is stored, otherwise the decrypted
   * entry; decryption under the wrong key throws.
   */
  function GetPrivateBalance(stored: Blob, sk: PrivateKey): (r: Result<int, Error>)
    ensures stored == Empty ==> r == Success(0)
    ensures stored != Empty ==> (r.Success? <==> Decrypt(sk, stored).Some?)
    ensures r.Success? && stored != Empty ==> Decrypt(sk, stored) == Some(r.value)
    ensures r.Failure? ==> r.error == DecryptFailed
  {
    if stored == Empty then Success(0)
    else
      match Decrypt(sk, stored)
      case Some(v) => Success(v)
      case None => Failure(DecryptFailed)
  }

  /**
   * `depositAmount`: re-encrypts before + amount for the account's own key
   * and submits it with a receiver proof for (before, amount).
   */
  function DepositAmount(stored: Blob, account: Address, token: Token, sk: PrivateKey,
                         amount: int, proveReceiver: Prover): (r: Result<Transaction, Error>)
    ensures GetPrivateBalance(stored, sk).Failure? ==> r == Failure(DecryptFailed)
    ensures GetPrivateBalance(stored, sk).Success? ==>
      var before := GetPrivateBalance(stored, sk).value;
      var out := proveReceiver(ReceiverInput(before, amount));
      && (r.Success? <==> out.Some? && HasCoordinates(out.value.proof))
      && (out.None? ==> r == Failure(ProveFailed))
      && (r.Success? ==>
            && r.value.from == account
            && r.value.call.Deposit?
            && r.value.call.token == token
            && r.value.call.amount == amount
            && Decrypt(sk, r.value.call.privateNewBalance) == Some(before + amount)
            && r.value.call.input == out.value.publicSignals
            && ProofToSolidityInput(out.value.proof) == Success(r.value.call.proof))
  {
    match GetPrivateBalance(stored, sk)
    case Failure(e) => Failure(e)
    case Success(before) =>
      var after := before + amount;
      var privateAfterBalance := Encrypt(PublicKeyOf(sk), after);
      match GenProof(proveReceiver, ReceiverInput(before, amount))
      case Failure(e) => Failure(e)
      case Success(p) =>
        Success(Transaction(account, Deposit(token, amount, privateAfterBalance, p.solidityProof, p.inputs)))
  }

  /**
   * `withdrawAmount`: re-encrypts before - amount (the helper does not
   * check that it stays non-negative), proves with the nonce and balance
   * it read, and returns public signal 4 as the request id.
   */
  function WithdrawAmount(nonce: nat, stored: Blob, account: Address, token: Token, sk: PrivateKey,
                          amount: int, proveSender: Prover): (r: Result<Settlement, Error>)
    ensures GetPrivateBalance(stored, sk).Failure? ==> r == Failure(DecryptFailed)
    ensures GetPrivateBalance(stored, sk).Success? ==>
      var before := GetPrivateBalance(stored, sk).value;
      var out := proveSender(SenderInput(account, before, amount, nonce));
      && (r.Success? <==> out.Some? && HasCoordinates(out.value.proof))
      && (out.None? ==> r == Failure(ProveFailed))
      && (r.Success? ==>
            && r.value.tx.from == account
            && r.value.tx.call.Withdraw?
            && r.value.tx.call.token == token
            && r.value.tx.call.amount == amount
            && Decrypt(sk, r.value.tx.call.privateNewBalance) == Some(before - amount)
            && r.value.tx.call.input == out.value.publicSignals
            && ProofToSolidityInput(out.value.proof) == Success(r.value.tx.call.proof)
            && r.value.requestId == SignalAt(out.value.publicSignals, RequestIdSignal))
  {
    match GetPrivateBalance(stored, sk)
    case Failure(e) => Failure(e)
    case Success(before) =>
      var after := before - amount;
      var privateAfterBalance := Encrypt(PublicKeyOf(sk), after);
      match GenProof(proveSender, SenderInput(account, before, amount, nonce))
      case Failure(e) => Failure(e)
      case Success(p) =>
        var call := Withdraw(token, amount, privateAfterBalance, p.solidityProof, p.inputs);
        Success(Settlement(Transaction(account, call), SignalAt(p.inputs, RequestIdSignal)))
  }

  /** The request `sendAmount` builds: no deal, no oracle, no time locks. */
  predicate IsPlainRequest(q: SendRequest)
  {
    && q.dealAddress == ZeroAddress && q.dealId == 0
    && q.oracleAddress == ZeroAddress && q.oracleOwner == ZeroAddress
    && q.oracleKey == 0 && q.oracleValue == 0
    && q.unlockSender == 0 && q.unlockReceiver == 0
  }

  /**
   * `sendAmount`: debits the sender's shadow balance, encrypts the amount
   * once for the sender and once for the counterparty, and submits a
   * single plain request whose recipient field is the sender's own address.
   */
  function SendAmount(nonce: nat, stored: Blob, account: Address, token: Token, sk: PrivateKey,
                      counterPublicKey: PublicKey, amount: int, proveSender: Prover): (r: Result<Settlement, Error>)
    ensures GetPrivateBalance(stored, sk).Failure? ==> r == Failure(DecryptFailed)
    ensures GetPrivateBalance(stored, sk).Success? ==>
      var before := GetPrivateBalance(stored, sk).value;
      var out := proveSender(SenderInput(account, before, amount, nonce));
      && (r.Success? <==> out.Some? && HasCoordinates(out.value.proof))
      && (out.None? ==> r == Failure(ProveFailed))
      && (r.Success? ==>
            && r.value.tx.from == account
            && r.value.tx.call.CreateRequest?
            && |r.value.tx.call.requests| == 1
            && var q := r.value.tx.call.requests[0];
            && IsPlainRequest(q)
            && q.recipient == account
            && q.denomination == token
            && Decrypt(sk, q.privateNewBalance) == Some(before - amount)
            && Decrypt(sk, q.privateSenderAmount) == Some(amount)
            && q.privateReceiverAmount == Encrypt(counterPublicKey, amount)
            && q.input == out.value.publicSignals
            && ProofToSolidityInput(out.value.proof) == Success(q.proof)
            && r.value.requestId == SignalAt(out.value.publicSignals, RequestIdSignal))
  {
    match GetPrivateBalance(stored, sk)
    case Failure(e) => Failure(e)
    case Success(before) =>
      var after := before - amount;
      var own := PublicKeyOf(sk);
      var privateAfterBalance := Encrypt(own, after);
      var privateAmountFrom := Encrypt(own, amount);
      var privateAmountTo := Encrypt(counterPublicKey, amount);
      match GenProof(proveSender, SenderInput(account, before, amount, nonce))
      case Failure(e) => Failure(e)
      case Success(p) =>
        var q := SendRequest(account, token,
                             ZeroAddress, 0, ZeroAddress, ZeroAddress, 0, 0, 0, 0,
                             privateAfterBalance, privateAmountFrom, privateAmountTo,
                             p.solidityProof, p.inputs);
        Success(Settlement(Transaction(account, CreateRequest([q])), SignalAt(p.inputs, RequestIdSignal)))
  }

  /**
   * `retreiveAmount`: decrypts the request's receiver amount with the
   * account's own key, credits it to the shadow balance and submits
   * acceptRequest with a receiver proof for (before, amount).
   * `privateReceiverAmount` is the field getSendRequest(idHash) returned.
   */
  function RetreiveAmount(privateReceiverAmount: Blob, idHash: Signal, stored: Blob, account: Address,
                          sk: PrivateKey, proveReceiver: Prover): (r: Result<Transaction, Error>)
    ensures (GetPrivateBalance(stored, sk).Failure? || Decrypt(sk, privateReceiverAmount).None?)
      ==> r == Failure(DecryptFailed)
    ensures GetPrivateBalance(stored, sk).Success? && Decrypt(sk, privateReceiverAmount).Some? ==>
      var before := GetPrivateBalance(stored, sk).value;
      var amount := Decrypt(sk, privateReceiverAmount).value;
      var out := proveReceiver(ReceiverInput(before, amount));
      && (r.Success? <==> out.Some? && HasCoordinates(out.value.proof))
      && (out.None? ==> r == Failure(ProveFailed))
      && (r.Success? ==>
            && r.value.from == account
            && r.value.call.AcceptRequest?
            && r.value.call.idHash == idHash
            && Decrypt(sk, r.value.call.privateNewBalance) == Some(before + amount)
            && r.value.call.input == out.value.publicSignals
            && ProofToSolidityInput(out.value.proof) == Success(r.value.call.proof))
  {
    match GetPrivateBalance(stored, sk)
    case Failure(e) => Failure(e)
    case Success(before) =>
      match Decrypt(sk, privateReceiverAmount)
      case None => Failure(DecryptFailed)
      case Some(amount) =>
        var afterBalance := Encrypt(PublicKeyOf(sk), before + amount);
        match GenProof(proveReceiver, ReceiverInput(before, amount))
        case Failure(e) => Failure(e)
        case Success(p) =>
          Success(Transaction(account, AcceptRequest(idHash, afterBalance, p.solidityProof, p.inputs)))
  }

  // ---------------------------------------------------------------------
  // Across calls: the shadow entry a helper submits is what the next
  // getPrivateBalance reads, provided the contract stores it as submitted.

  /** After a deposit the account reads back before + amount. */
  lemma BalanceAfterDeposit(stored: Blob, account: Address, token: Token, sk: PrivateKey,
                            amount: int, proveReceiver: Prover)
    requires DepositAmount(stored, account, token, sk, amount, proveReceiver).Success?
    ensures GetPrivateBalance(stored, sk).Success?
    ensures GetPrivateBalance(DepositAmount(stored, account, token, sk, amount, proveReceiver)
                                .value.call.privateNewBalance, sk)
         == Success(GetPrivateBalance(stored, sk).value + amount)
  {
  }

  /** After a withdrawal the account reads back before - amount. */
  lemma BalanceAfterWithdraw(nonce: nat, stored: Blob, account: Address, token: Token, sk: PrivateKey,
                             amount: int, proveSender: Prover)
    requires WithdrawAmount(nonce, stored, account, token, sk, amount, proveSender).Success?
    ensures GetPrivateBalance(stored, sk).Success?
    ensures GetPrivateBalance(WithdrawAmount(nonce, stored, account, token, sk, amount, proveSender)
                                .value.tx.call.privateNewBalance, sk)
         == Success(GetPrivateBalance(stored, sk).value - amount)
  {
  }

  /**
   * The helper itself never checks amount <= before: whenever the prover
   * returns a proof for the overdrawing witness, a negative new balance is
   * submitted. Whether the sender circuit rejects such a witness is up to
   * the circuit, which is not part of this model.
   */
  lemma WithdrawMayOverdraw(nonce: nat, stored: Blob, account: Address, token: Token, sk: PrivateKey,
                            amount: int, proveSender: Prover)
    requires GetPrivateBalance(stored, sk).Success?
    requires amount > GetPrivateBalance(stored, sk).value
    requires Proves(proveSender, SenderInput(account, GetPrivateBalance(stored, sk).value, amount, nonce))
    ensures WithdrawAmount(nonce, stored, account, token, sk, amount, proveSender).Success?
    ensures Decrypt(sk, WithdrawAmount(nonce, stored, account, token, sk, amount, proveSender)
                          .value.tx.call.privateNewBalance).value < 0
  {
  }

  /** Only the holder of the key the sender encrypted for can retrieve. */
  lemma RetrieveNeedsCounterpartyKey(nonce: nat, storedA: Blob, account: Address, token: Token,
                                     skA: PrivateKey, counterPublicKey: PublicKey, amount: int,
                                     proveSender: Prover, idHash: Signal, storedB: Blob,
                                     receiver: Address, skB: PrivateKey, proveReceiver: Prover)
    requires SendAmount(nonce, storedA, account, token, skA, counterPublicKey, amount, proveSender).Success?
    requires counterPublicKey != PublicKeyOf(skB)
    ensures
      var q := SendAmount(nonce, storedA, account, token, skA, counterPublicKey, amount, proveSender)
                 .value.tx.call.requests[0];
      RetreiveAmount(q.privateReceiverAmount, idHash, storedB, receiver, skB, proveReceiver)
        == Failure(DecryptFailed)
  {
  }

  /**
   * A send followed by the counterparty's retrieve of the same request:
   * the counterparty is credited exactly the amount the sender debited,
   * so the two shadow balances sum to what they summed to before.
   */
  lemma SendThenRetrieve(nonce: nat, storedA: Blob, account: Address, token: Token, skA: PrivateKey,
                         amount: int, proveSender: Prover,
                         idHash: Signal, storedB: Blob, receiver: Address, skB: PrivateKey,
                         proveReceiver: Prover)
    requires SendAmount(nonce, storedA, account, token, skA, PublicKeyOf(skB), amount, proveSender).Success?
    requires GetPrivateBalance(storedB, skB).Success?
    requires Proves(proveReceiver, ReceiverInput(GetPrivateBalance(storedB, skB).value, amount))
    ensures
      var beforeA := GetPrivateBalance(storedA, skA).value;
      var beforeB := GetPrivateBalance(storedB, skB).value;
      var q := SendAmount(nonce, storedA, account, token, skA, PublicKeyOf(skB), amount, proveSender)
                 .value.tx.call.requests[0];
      var t := RetreiveAmount(q.privateReceiverAmount, idHash, storedB, receiver, skB, proveReceiver);
      && t.Success?
      && var afterA := GetPrivateBalance(q.privateNewBalance, skA);
      && var afterB := GetPrivateBalance(t.value.call.privateNewBalance, skB);
      && afterA == Success(beforeA - amount)
      && afterB == Success(beforeB + amount)
      && afterA.value + afterB.value == beforeA + beforeB
  {
  }

  /**
   * The two-party scenario: A holds 100 and sends 30 to B, who holds
   * nothing yet; A then reads 70 and B, after retrieving, reads 30.
   */
  lemma SendThirtyOfHundred(nonce: nat, account: Address, token: Token, skA: PrivateKey,
                            proveSender: Prover, idHash: Signal, receiver: Address, skB: PrivateKey,
                            proveReceiver: Prover)
    requires Proves(proveSender, SenderInput(account, 100, 30, nonce))
    requires Proves(proveReceiver, ReceiverInput(0, 30))
    ensures
      var s := SendAmount(nonce, Encrypt(PublicKeyOf(skA), 100), account, token, skA,
                          PublicKeyOf(skB), 30, proveSender);
      && s.Success?
      && var q := s.value.tx.call.requests[0];
      && GetPrivateBalance(q.privateNewBalance, skA) == Success(70)
      && var t := RetreiveAmount(q.privateReceiverAmount, idHash, Empty, receiver, skB, proveReceiver);
      && t.Success?
      && GetPrivateBalance(t.value.call.privateNewBalance, skB) == Success(30)
  {
  }
}
