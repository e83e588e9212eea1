/** Failure-carrying results shared by every module of the model.  Each
    exception the C# source throws becomes an `Error` value. */
module Errors {

  datatype Option<+T> = None | Some(value: T)

  datatype Error =
    | NotHost                    // a host-only operation issued by a client
    | SpawnedOnHost              // a spawn message reached the host itself
    | NoServer                   // a server-side send on a peer that runs no server
    | MissingAsset(assetId: string)
    | NotAScene(assetId: string) // the registered asset is not a PackedScene
    | DuplicateKey               // Dictionary.Add on a key that is already present
    | MissingKey                 // the Dictionary indexer on an absent key
    | NoNetworkNode              // a node that has no network node above it
    | UnknownObject(id: nat)     // a reliable RPC for an object id not in the registry
    | MissingNode(path: string)  // a reliable RPC for a path that is not in the scene
    | UnknownHandler(key: string)
    | NotRegistered              // a networked variable used before Register
    | Truncated                  // a read past the bits that were written

  datatype Result<+T> = Ok(value: T) | Err(error: Error)

  /** The result of an operation that returns nothing. */
  datatype Outcome = Pass | Fail(error: Error)
}
