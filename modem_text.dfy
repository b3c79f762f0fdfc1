/** The text side of the AT dialogue with the LTE modem: the nine
    configuration commands, the keywords looked for in the modem's replies,
    the per-step acceptance tests, and the reply parsers of `getSignalStrength`
    (`+CSQ`, 3GPP TS 27.007 section 8.5) and `getICCID`. */
module ModemText {
  import opened Bytes

  /** The configuration steps, in order. */
  datatype Step =
    | AtTest | DisableEcho | GetIccid | CheckGprsAttach | SetTransparentMode
    | SetApn | ActivateGprs | GetIp | ConnectTcp | Completed

  /** Position of a step in the sequence (the enum value in the source). */
  function Index(s: Step): (i: nat)
    ensures i <= 9 && (i == 9 <==> s == Completed)
  {
    match s
    case AtTest => 0
    case DisableEcho => 1
    case GetIccid => 2
    case CheckGprsAttach => 3
    case SetTransparentMode => 4
    case SetApn => 5
    case ActivateGprs => 6
    case GetIp => 7
    case ConnectTcp => 8
    case Completed => 9
  }

  /** The step after `s` (the source's `_currentStep + 1`). */
  function Next(s: Step): (t: Step)
    requires s != Completed
    ensures Index(t) == Index(s) + 1
  {
    match s
    case AtTest => DisableEcho
    case DisableEcho => GetIccid
    case GetIccid => CheckGprsAttach
    case CheckGprsAttach => SetTransparentMode
    case SetTransparentMode => SetApn
    case SetApn => ActivateGprs
    case ActivateGprs => GetIp
    case GetIp => ConnectTcp
    case ConnectTcp => Completed
  }

  /** The step at position `i`. */
  function StepAt(i: nat): (s: Step)
    requires i <= 9
    ensures Index(s) == i
  {
    if i == 0 then AtTest else Next(StepAt(i - 1))
  }

  /** "\r\n", the line ending `println` appends. */
  const Crlf: Bytes := [0x0D, 0x0A]

  /** The command sent for a step (without the line ending `println` adds). */
  function Command(s: Step, serverIP: Bytes, serverPort: Bytes): Bytes
    requires s != Completed
  {
    match s
    case AtTest => Ascii("AT")
    case DisableEcho => Ascii("ATE0")
    case GetIccid => Ascii("AT+ICCID")
    case CheckGprsAttach => Ascii("AT+CGATT?")
    case SetTransparentMode => Ascii("AT+CIPMODE=1")
    case SetApn => Ascii("AT+CSTT=\"\",\"\",\"\"")
    case ActivateGprs => Ascii("AT+CIICR")
    case GetIp => Ascii("AT+CIFSR")
    case ConnectTcp => Ascii("AT+CIPSTART=\"TCP\",\"") + serverIP + Ascii("\",") + serverPort
  }

  // The keywords looked for in replies, written out byte by byte.
  /** "OK" */
  const Ok: Bytes := [0x4F, 0x4B]
  /** "NO CARRIER" */
  const NoCarrier: Bytes := [0x4E, 0x4F, 0x20, 0x43, 0x41, 0x52, 0x52, 0x49, 0x45, 0x52]
  /** "+ICCID:" */
  const IccidTag: Bytes := [0x2B, 0x49, 0x43, 0x43, 0x49, 0x44, 0x3A]
  /** "+ICCID: " */
  const IccidPrefix: Bytes := [0x2B, 0x49, 0x43, 0x43, 0x49, 0x44, 0x3A, 0x20]
  /** "+CGATT: 1" (3GPP TS 27.007 section 10.1.9: attached) */
  const Attached: Bytes := [0x2B, 0x43, 0x47, 0x41, 0x54, 0x54, 0x3A, 0x20, 0x31]
  /** "CONNECT" */
  const Connect: Bytes := [0x43, 0x4F, 0x4E, 0x4E, 0x45, 0x43, 0x54]
  /** "CONNECT FAIL" */
  const ConnectFail: Bytes := [0x43, 0x4F, 0x4E, 0x4E, 0x45, 0x43, 0x54, 0x20, 0x46, 0x41, 0x49, 0x4C]
  /** "ERROR" */
  const Error: Bytes := [0x45, 0x52, 0x52, 0x4F, 0x52]
  /** "+CSQ: " */
  const CsqPrefix: Bytes := [0x2B, 0x43, 0x53, 0x51, 0x3A, 0x20]
  /** "," */
  const Comma: Bytes := [0x2C]
  /** "\n" */
  const Newline: Bytes := [0x0A]

  /** Steps whose outcome is forced to success, whatever the modem says. */
  predicate Soft(s: Step)
  {
    s == SetTransparentMode || s == SetApn || s == ActivateGprs || s == GetIp
  }

  /** The success test of every step but the TCP connection, applied to
      the trimmed reply. */
  predicate Accepts(s: Step, reply: Bytes)
    requires s != ConnectTcp && s != Completed
  {
    match s
    case AtTest => Contains(reply, Ok)
    case DisableEcho => Contains(reply, Ok) || Contains(reply, NoCarrier)
    case GetIccid => Contains(reply, IccidTag) && Contains(reply, Ok)
    case CheckGprsAttach => Contains(reply, Attached) && Contains(reply, Ok)
    case _ => true
  }

  /** A reply that reports an established TCP connection. */
  predicate Established(reply: Bytes)
  {
    Contains(reply, Connect) && !Contains(reply, ConnectFail)
  }

  /** The forced steps accept every reply; every other step refuses a reply
      without "OK" unless it is the "NO CARRIER" of `ATE0`. */
  lemma AcceptsSoftOnly(s: Step, reply: Bytes)
    requires s != ConnectTcp && s != Completed
    ensures Soft(s) ==> Accepts(s, reply)
    ensures !Soft(s) && !Contains(reply, Ok) ==>
      (Accepts(s, reply) <==> s == DisableEcho && Contains(reply, NoCarrier))
  {
  }

  /** Every keyword begins and ends with a printable byte, so trimming the
      reply (as `processResponse` does first) never changes a verdict. */
  lemma AcceptsIgnoresTrim(s: Step, reply: Bytes)
    requires s != ConnectTcp && s != Completed
    ensures Accepts(s, Trim(reply)) <==> Accepts(s, reply)
  {
    TrimKeepsKeyword(reply, Ok);
    TrimKeepsKeyword(reply, NoCarrier);
    TrimKeepsKeyword(reply, IccidTag);
    TrimKeepsKeyword(reply, Attached);
  }

  /** The TCP step's tests are not changed by trimming either. */
  lemma EstablishedIgnoresTrim(reply: Bytes)
    ensures Contains(Trim(reply), Ok) <==> Contains(reply, Ok)
    ensures Established(Trim(reply)) <==> Established(reply)
  {
    TrimKeepsKeyword(reply, Ok);
    TrimKeepsKeyword(reply, Connect);
    TrimKeepsKeyword(reply, ConnectFail);
  }

  /** `getSignalStrength`: the number between "+CSQ: " and the next comma,
      or -1 when either is missing. */
  function SignalStrength(reply: Bytes): (rssi: int)
    ensures rssi != -1 ==> Contains(reply, CsqPrefix)
    ensures LongMin <= rssi <= LongMax
  {
    match Between(reply, CsqPrefix, Comma)
    case None => -1
    case Some(field) => ToInt(field)
  }

  /** A reply whose first "+CSQ: " is followed by a decimal number and a
      comma yields that number (saturated at `LONG_MAX`); whatever precedes
      or follows does not matter. */
  lemma SignalStrengthReads(pre: Bytes, rssi: nat, post: Bytes)
    requires IndexOf(pre + CsqPrefix, CsqPrefix, 0) == |pre|
    ensures SignalStrength(pre + CsqPrefix + Decimal(rssi) + Comma + post)
      == if rssi <= LongMax then rssi else LongMax
  {
    DecimalAvoids(rssi, 0x2C);
    BetweenFound(pre + CsqPrefix, CsqPrefix, Decimal(rssi), Comma, post);
    ToIntOfDecimal(rssi);
  }

  /** Without "+CSQ: ", or without a comma after it, there is no reading. */
  lemma SignalStrengthMissing(reply: Bytes)
    requires !Contains(reply, CsqPrefix) || !Contains(reply[IndexOf(reply, CsqPrefix, 0) + |CsqPrefix|..], Comma)
    ensures SignalStrength(reply) == -1
  {
    if Contains(reply, CsqPrefix) {
      BetweenNoSeparator(reply, CsqPrefix, Comma, IndexOf(reply, CsqPrefix, 0) + |CsqPrefix|);
    }
  }

  /** `getICCID`: the trimmed text between "+ICCID: " and the next line
      feed, or empty when either is missing. */
  function Iccid(reply: Bytes): (id: Bytes)
    ensures id != [] ==> Contains(reply, IccidPrefix)
  {
    match Between(reply, IccidPrefix, Newline)
    case None => []
    case Some(field) => Trim(field)
  }

  /** A card identifier without whitespace, reported on a line of its own
      after the first "+ICCID: ", is read back exactly. */
  lemma IccidReads(pre: Bytes, id: Bytes, post: Bytes)
    requires IndexOf(pre + IccidPrefix, IccidPrefix, 0) == |pre|
    requires forall j :: 0 <= j < |id| ==> !IsSpace(id[j])
    ensures Iccid(pre + IccidPrefix + id + Crlf + post) == id
  {
    var head := pre + IccidPrefix;
    var field := id + [0x0D];
    SplitCrlf(head, id, post);
    assert forall j :: 0 <= j < |field| ==> field[j] != Newline[0] by {
      forall j | 0 <= j < |field| ensures field[j] != Newline[0] {
        if j < |id| { assert !IsSpace(id[j]); }
      }
    }
    BetweenFound(head, IccidPrefix, field, Newline, post);
    TrimCarriageReturn(id);
  }

  /** A line ending splits into the carriage return, kept in the field, and
      the line feed that ends it. */
  lemma SplitCrlf(head: Bytes, id: Bytes, post: Bytes)
    ensures head + id + Crlf + post == head + (id + [0x0D]) + Newline + post
  {
  }

  /** Trimming a run of non-space bytes followed by "\r" leaves the run. */
  lemma TrimCarriageReturn(id: Bytes)
    requires forall j :: 0 <= j < |id| ==> !IsSpace(id[j])
    ensures Trim(id + [0x0D]) == id
  {
    var field := id + [0x0D];
    if |id| > 0 {
      assert SkipSpace(field, 0) == 0;
      assert TrimEndAt(field, 0, |field|) == TrimEndAt(field, 0, |id|);
      assert TrimEndAt(field, 0, |id|) == |id|;
      assert field[0..|id|] == id;
    } else {
      assert SkipSpace(field, 0) == 1;
    }
  }

  /** Without "+ICCID: ", or without a line feed after it, the identifier
      is empty. */
  lemma IccidMissing(reply: Bytes)
    requires !Contains(reply, IccidPrefix) || !Contains(reply[IndexOf(reply, IccidPrefix, 0) + |IccidPrefix|..], Newline)
    ensures Iccid(reply) == []
  {
    if Contains(reply, IccidPrefix) {
      BetweenNoSeparator(reply, IccidPrefix, Newline, IndexOf(reply, IccidPrefix, 0) + |IccidPrefix|);
    }
  }
}
