/**
 Wire types of the Hanko protocol. A Go string holding valid UTF-8 is a Dafny
 `string` (a sequence of Unicode scalar values), a Go `[]byte` a sequence of
 `Byte`, an instant a count of nanoseconds without bounds.
 */
module Protocol {

  type Byte = b: int | 0 <= b < 256

  type Bytes = seq<Byte>

  datatype Option<+T> = None | Some(value: T) {
    predicate IsFailure() {
      None?
    }

    function PropagateFailure<U>(): Option<U>
      requires None?
    {
      None
    }

    function Extract(): T
      requires Some?
    {
      value
    }
  }

  /** A Go slice: nil and empty behave alike in a loop but are different JSON. */
  datatype Slice<+T> = NilSlice | Of(elements: seq<T>) {
    function Items(): seq<T> {
      if NilSlice? then [] else elements
    }
  }

  /** An instant, in nanoseconds since the Unix epoch, and the zone (minutes east of UTC) it is written in. */
  datatype Timestamp = Timestamp(nanos: int, zone: int)

  datatype Sigil = Sigil(id: string, subject: string, publicKey: Slice<Byte>, createdAt: Timestamp,
                         expiresAt: Option<Timestamp>, metadata: map<string, string>)

  datatype CapabilityToken = CapabilityToken(id: string, sigilId: string, scope: string, issuedAt: Timestamp,
                                             expiresAt: Timestamp, nonce: Slice<Byte>)

  datatype Envelope = Envelope(version: string, sigilId: string, caps: Slice<CapabilityToken>, issuer: string,
                               issuedAt: Timestamp, expiresAt: Timestamp, signature: Slice<Byte>)

  datatype RevocationEntry = RevocationEntry(id: string, targetType: string, reason: string,
                                             revokedAt: Timestamp, revokedBy: string)

  /** What VerifyAttestation returns; Accepted is the nil error. */
  datatype VerifyResult =
    | Accepted
    | BodyError
    | SignatureInvalid
    | SigilRevoked
    | CapExpired
    | CapRevoked
    | ReplayAttack

  /** Outcome of the signature stage, the only part of verification that never touches the store. */
  datatype SignatureCheck = Good | Bad | Unencodable
}
