/**
  Roster records (internal/mesh/record.go) with idealised cryptography: a box
  opens only under its own key, a signature verifies only over the body it was
  made for, and key derivation is injective in PSK and name.
 */
module Records {
  import opened Wrappers
  import Names

  /** Candidate types are free text on the wire; three of them mean something. */
  datatype CandidateType = Host | Srflx | Prflx | OtherKind(text: string)

  datatype Candidate = Candidate(kind: CandidateType, addr: string)

  datatype PubKey = ZeroKey | NodeKey(psk: string, name: string) | OtherKey(id: nat)

  datatype PkText = PkText(key: PubKey) | NotAKey

  datatype Body = Body(
    name: string, ip: string, port: int, candidates: seq<Candidate>, adv: seq<string>,
    ts: int, seqno: nat, pk: PkText)

  datatype Signature = Unsigned | Signature(signer: PubKey, over: Body)

  datatype Record = Record(body: Body, sig: Signature)

  datatype Plain = Json(rec: Record) | OtherText(text: string)

  datatype Sealed = Box(psk: string, nonce: nat, plain: Plain) | NotABox(text: string)

  /** The mesh PSK, and the overlay address it gives each valid name inside the mesh CIDR. */
  datatype Deriver = Deriver(psk: string, overlayOf: string -> Option<string>)

  function PublicKeyOf(d: Deriver, name: string): PubKey {
    var n := Names.Normalize(name);
    if Names.Valid(n) then NodeKey(d.psk, n) else ZeroKey
  }

  function OverlayIP(d: Deriver, name: string): Option<string> {
    var n := Names.Normalize(name);
    if Names.Valid(n) then d.overlayOf(n) else None
  }

  /** Fills in the public key and signs everything else. */
  function Sign(body: Body, id: PubKey): Record {
    var b := body.(pk := PkText(id));
    Record(b, Signature(id, b))
  }

  function Seal(d: Deriver, nonce: nat, rec: Record): Sealed {
    Box(d.psk, nonce, Json(rec))
  }

  function Open(d: Deriver, v: Sealed): Option<Plain> {
    if v.Box? && v.psk == d.psk then Some(v.plain) else None
  }

  /** The body of a record whose embedded signature matches its embedded key. */
  function DecodeRecord(p: Plain): Option<Body> {
    match p
    case OtherText(_) => None
    case Json(Record(body, sig)) =>
      if body.pk.PkText? && sig == Signature(body.pk.key, body) then Some(body) else None
  }

  predicate Bound(d: Deriver, body: Body) {
    && body.pk == PkText(PublicKeyOf(d, body.name))
    && OverlayIP(d, body.name) == Some(body.ip)
  }

  /** The record a value carries when it opens, verifies and is bound to its name. */
  function Genuine(d: Deriver, v: Sealed): Option<Body> {
    match Open(d, v)
    case None => None
    case Some(plain) =>
      match DecodeRecord(plain)
      case None => None
      case Some(body) => if Bound(d, body) then Some(body) else None
  }

  /** The record `me` takes from a value read when nothing older than `cutoff` counts. */
  function Accept(d: Deriver, me: string, cutoff: int, v: Sealed): Option<Body> {
    match Genuine(d, v)
    case None => None
    case Some(body) => if body.ts < cutoff || body.name == me then None else Some(body)
  }

  /** What a node with a valid name signs and seals is what everybody else reads back. */
  lemma SealedRecordRoundTrip(d: Deriver, nonce: nat, body: Body)
    requires Names.Valid(body.name) && d.overlayOf(body.name) == Some(body.ip)
    ensures var id := PublicKeyOf(d, body.name);
            Genuine(d, Seal(d, nonce, Sign(body, id))) == Some(body.(pk := PkText(id)))
  {
    Names.ValidIsNormal(body.name);
  }

  /**
    Nobody without the PSK and the name's own identity can make a genuine
    value: it is boxed under the PSK and signed, over exactly this body, by the
    key derived for the name, and it claims the address derived for the name.
   */
  lemma GenuineIsBound(d: Deriver, v: Sealed, body: Body)
    requires Genuine(d, v) == Some(body)
    ensures Names.Valid(Names.Normalize(body.name))
    ensures var id := NodeKey(d.psk, Names.Normalize(body.name));
            v == Box(d.psk, v.nonce, Json(Record(body, Signature(id, body)))) && body.pk == PkText(id)
    ensures d.overlayOf(Names.Normalize(body.name)) == Some(body.ip)
  {
  }
}
