/**
  Chat envelopes (internal/engine/envelope.go), with idealised sealing: a box
  opens only under its key, and a deterministic nonce is a digest of the text.
 */
module Envelopes {
  import opened Wrappers

  datatype Msg = Msg(
    version: int, kind: string, pk: string, name: string, seqno: nat, ts: int, room: string, box: string, sig: string)

  /** The JSON under a seal: the one text Marshal writes for a message, another that parses to it, or no message. */
  datatype Text = Canonical(msg: Msg) | Reworded(msg: Msg, how: nat) | NoMessage(n: nat)

  datatype Nonce = DigestOf(text: Text) | RandomNonce(n: nat)

  datatype RoomValue = RoomBox(key: string, nonce: Nonce, text: Text) | NotABox(n: nat)

  function DecodeEnvelope(key: string, v: RoomValue): Option<Msg> {
    if v.RoomBox? && v.key == key && !v.text.NoMessage? then Some(v.text.msg) else None
  }

  function Marshal(key: string, m: Msg): RoomValue {
    RoomBox(key, DigestOf(Canonical(m)), Canonical(m))
  }

  /** Sealed by `Marshal` and by nothing else. */
  predicate IsCanonical(v: RoomValue) {
    v.RoomBox? && v.text.Canonical? && v.nonce == DigestOf(v.text)
  }

  lemma MarshalDecodes(key: string, m: Msg)
    ensures DecodeEnvelope(key, Marshal(key, m)) == Some(m) && IsCanonical(Marshal(key, m))
  {
  }

  /** Re-marshalling a decoded envelope reproduces the stored bytes exactly when they are canonical. */
  lemma RemarshalReproducesIffCanonical(key: string, v: RoomValue, m: Msg)
    requires DecodeEnvelope(key, v) == Some(m)
    ensures Marshal(key, m) == v <==> IsCanonical(v)
  {
  }

  // ----- Message identity -----

  function Digit(n: nat): char
    requires n < 10
  {
    '0' + n as char
  }

  /** `strconv.FormatUint(n, 10)` */
  function Decimal(n: nat): string {
    if n < 10 then [Digit(n)] else Decimal(n / 10) + [Digit(n % 10)]
  }

  /** The number that decimal digits stand for, the last being the ones. */
  ghost function ValueOf(s: string): int {
    if s == "" then 0 else 10 * ValueOf(s[..|s| - 1]) + (s[|s| - 1] as int - '0' as int)
  }

  /** The text is the number in decimal: its digits read back as it, without a leading zero. */
  lemma {:induction false} DecimalReads(n: nat)
    ensures ValueOf(Decimal(n)) == n && Decimal(n) != "" && (n > 0 ==> Decimal(n)[0] != '0')
    ensures forall c :: c in Decimal(n) ==> '0' <= c <= '9'
  {
    var s := Decimal(n);
    if n >= 10 {
      DecimalReads(n / 10);
      assert s[..|s| - 1] == Decimal(n / 10) && s[|s| - 1] == Digit(n % 10);
    } else {
      assert s[..0] == "" && s[0] == Digit(n);
    }
  }

  function ID(m: Msg): string {
    m.pk + "#" + Decimal(m.seqno)
  }

  lemma {:induction false} DecimalHasNoHash(n: nat)
    ensures '#' !in Decimal(n)
  {
    if n >= 10 { DecimalHasNoHash(n / 10); }
  }

  lemma {:induction false} DecimalLength(n: nat)
    ensures Decimal(n) != "" && (n >= 10 <==> |Decimal(n)| > 1)
  {
    if n >= 10 { DecimalLength(n / 10); }
  }

  lemma {:induction false} DecimalInjective(a: nat, b: nat)
    requires Decimal(a) == Decimal(b)
    ensures a == b
  {
    var s, t := Decimal(a), Decimal(b);
    DecimalLength(a);
    DecimalLength(b);
    assert s[|s| - 1] == Digit(a % 10) && t[|t| - 1] == Digit(b % 10);
    if a >= 10 {
      assert Decimal(a / 10) == s[..|s| - 1] && Decimal(b / 10) == t[..|t| - 1];
      DecimalInjective(a / 10, b / 10);
    }
  }

  lemma SplitAtLastHash(s: string, d: string, t: string, e: string)
    requires s + "#" + d == t + "#" + e && '#' !in d && '#' !in e
    ensures s == t && d == e
  {
    var whole := s + "#" + d;
    assert whole[|s|] == '#' && whole[|t|] == '#';
    assert forall k :: |s| < k < |whole| ==> whole[k] == d[k - |s| - 1];
    assert forall k :: |t| < k < |whole| ==> whole[k] == e[k - |t| - 1];
    assert s == whole[..|s|] && t == whole[..|t|];
    assert d == whole[|s| + 1..] && e == whole[|t| + 1..];
  }

  /** An ID names one sender key text and one sequence number, whatever the key text is. */
  lemma IDIdentifies(a: Msg, b: Msg)
    ensures ID(a) == ID(b) <==> a.pk == b.pk && a.seqno == b.seqno
  {
    if ID(a) == ID(b) {
      DecimalHasNoHash(a.seqno);
      DecimalHasNoHash(b.seqno);
      SplitAtLastHash(a.pk, Decimal(a.seqno), b.pk, Decimal(b.seqno));
      DecimalInjective(a.seqno, b.seqno);
    }
  }
}
