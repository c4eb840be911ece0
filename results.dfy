/**
 * Error taxonomy and the result/option types used by every operation of the
 * model. Each constructor of `Error` stands for one exception the source can
 * raise (directly or through the ethers library it calls).
 */
module Results {

  datatype Error =
    | InvalidPrivateKey         // 'invalid private key' (sign_hash)
    | InvalidMessageHashLength  // 'invalid message hash length' (sign_hash)
    | InvalidSignature          // 'Invalid signature' (checkSignature)
    | InvalidArrayifyValue      // ethers keccak256 given text that is not 0x-prefixed hex
    | UndefinedElement          // TypeError: reading a property of undefined (a missing array element)
    | InvalidArrayLength        // ethers solidityPack: a fixed-length array of the wrong length
    | PublicKeyHashMismatch     // 'Public Key Hash Does Not Match Secret' (uncompressLamport)
    | NoKeysLeft                // 'No keys left' (getOne)
    | CannotRemoveSigningKey    // 'Cannot remove signing key' (removeKeys)
    | InsufficientBalance       // 'Insufficient balance to pay fee' (addKeys)
    | AddressMismatch           // 'Counterfactual address ... does not match deployed address ...'

  datatype Result<+T> = Ok(value: T) | Err(error: Error) {
    predicate IsFailure() { Err? }
    function PropagateFailure<U>(): Result<U>
      requires Err?
    {
      Err(error)
    }
    function Extract(): T
      requires Ok?
    {
      value
    }
  }

  datatype Option<+T> = None | Some(value: T)
}
