/** Shared vocabulary: optional values, results with the runtime's error codes, and machine limits. */
module Common {

  const MAX_U32: nat := 0xFFFF_FFFF
  const MAX_U64: nat := 0xFFFF_FFFF_FFFF_FFFF
  const U64_MODULUS: nat := 0x1_0000_0000_0000_0000

  /** A byte of a persisted or wire format. */
  type Byte = x: nat | x < 256

  /** A byte string: what the runtime's strings hold. */
  type Text = seq<Byte>

  datatype Option<+T> = None | Some(value: T)

  /** The subset of the runtime's error codes that the modelled operations return. */
  datatype ErrorCode =
    | InvalidArgument
    | NotFound
    | AlreadyExists
    | BoundsExceeded
    | ResourceExhausted
    | AuthorityConflict
    | StaleAuthority
    | StaleEpoch
    | StaleGeneration
    | StaleIncarnation
    | NotAuthoritative
    | DuplicateFrame
    | Malformed
    | IntegrityFailure
    | ProtocolViolation
    | MigrationFailure
    | IrreversibleBoundary
    | Unsupported
    | NotReady
    | IllegalTransition
    | Internal

  datatype Result<+T> = Ok(value: T) | Err(code: ErrorCode)

  /** Success or an error code, for operations that return no value. */
  type Status = Result<()>

  const SUCCESS: Status := Ok(())

  /** Addition of two unsigned 64-bit values, with the wrap-around of the machine type. */
  function AddU64(a: nat, b: nat): (r: nat)
    ensures r <= MAX_U64
    ensures a + b <= MAX_U64 ==> r == a + b
  {
    (a + b) % U64_MODULUS
  }

  /** First position whose element satisfies `p`, or `|s|` when there is none. */
  function IndexWhere<T>(s: seq<T>, p: T -> bool): (r: nat)
    ensures r <= |s|
    ensures forall i :: 0 <= i < r ==> !p(s[i])
    ensures r < |s| ==> p(s[r])
  {
    if s == [] then 0
    else if p(s[0]) then 0
    else 1 + IndexWhere(s[1..], p)
  }

  lemma IndexWhereUnique<T>(s: seq<T>, p: T -> bool, k: nat)
    requires k <= |s|
    requires forall i :: 0 <= i < k ==> !p(s[i])
    requires k < |s| ==> p(s[k])
    ensures IndexWhere(s, p) == k
  {
  }

  /** All chunks one after the other. */
  function Concat<T>(chunks: seq<seq<T>>): seq<T> {
    if chunks == [] then [] else Concat(chunks[..|chunks| - 1]) + chunks[|chunks| - 1]
  }
}
