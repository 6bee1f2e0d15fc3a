/**
 * scp/scp.go: the receiving ("sink") side of an SCP transfer of one file.
 * The sink acknowledges with a zero byte, reads the header line
 * `C<mode> <length> <path>`, acknowledges it, reads the file's bytes in one
 * read, and acknowledges them.
 */
module Scp {
  import opened Wrappers
  import opened GoStrings
  import opened Transport

  newtype byte = b: int | 0 <= b < 256

  /** The separator of the header's fields, an ASCII space. */
  const Space: byte := 32

  /** The acknowledgement the sink writes: a single zero byte. */
  const Ack: seq<byte> := [0]

  /** The size of the buffer the header is read into. */
  const MetaSize: nat := 1024

  const MinInt64: int := -0x8000_0000_0000_0000
  const MaxInt64: int := 0x7fff_ffff_ffff_ffff

  /** Why `getFile` gave up. */
  datatype ScpError =
    | MetaRead        // reading the header failed
    | BadMetadata     // the header has fewer than three space-separated fields
    | BadLength       // the length field is not a base-10 64-bit integer
    | PayloadRead     // reading the file's bytes failed
    | IncompleteFile  // the read returned fewer bytes than the header announced

  /**
   * What `getFile` comes to: the file, an error, or a run-time panic (Go's
   * `make` refuses a negative length, which the header may announce).
   */
  datatype Outcome = Got(file: seq<byte>) | Failed(error: ScpError) | Panicked

  predicate IsDigit(c: byte)
  {
    '0' as byte <= c <= '9' as byte
  }

  predicate AllDigits(s: seq<byte>)
  {
    forall i :: 0 <= i < |s| ==> IsDigit(s[i])
  }

  /** The value of a string of decimal digits, most significant first. */
  function DigitsValue(s: seq<byte>): nat
    requires AllDigits(s)
  {
    if s == [] then 0
    else DigitsValue(s[..|s| - 1]) * 10 + (s[|s| - 1] - '0' as byte) as nat
  }

  /**
   * `strconv.ParseInt(s, 10, 64)`: an optional sign, then one or more decimal
   * digits and nothing else, whose value fits in 64 bits. `None` is Go's error.
   */
  function ParseInt(s: seq<byte>): (r: Option<int>)
    ensures r.Some? ==> MinInt64 <= r.value <= MaxInt64
    ensures r.Some? ==> |s| > 0
  {
    if s == [] then None
    else
      var neg := s[0] == '-' as byte;
      var body := if s[0] == '-' as byte || s[0] == '+' as byte then s[1..] else s;
      if body == [] || !AllDigits(body) then None
      else
        var magnitude: int := DigitsValue(body);
        var v := if neg then -magnitude else magnitude;
        if MinInt64 <= v <= MaxInt64 then Some(v) else None
  }

  /**
   * What `strconv.ParseInt` accepts: an optional sign followed by one or more
   * digits has the signed value of the digits when it fits in 64 bits, and is
   * refused when it does not; a sign alone, or nothing, is refused.
   */
  lemma ParseIntDigits(sign: seq<byte>, ds: seq<byte>)
    requires sign == [] || sign == ['+' as byte] || sign == ['-' as byte]
    requires AllDigits(ds)
    ensures ds == [] ==> ParseInt(sign + ds) == None
    ensures ds != [] ==>
      var v: int := if sign == ['-' as byte] then -(DigitsValue(ds) as int) else DigitsValue(ds);
      ParseInt(sign + ds) == if MinInt64 <= v <= MaxInt64 then Some(v) else None
  {
    if sign != [] {
      assert (sign + ds)[1..] == ds;
    } else {
      assert sign + ds == ds;
    }
  }

  /**
   * What `strconv.ParseInt` refuses: text holding a byte that is not a digit,
   * other than a sign in first position.
   */
  lemma ParseIntRefuses(s: seq<byte>, i: nat)
    requires i < |s| && !IsDigit(s[i])
    requires i > 0 || (s[0] != '-' as byte && s[0] != '+' as byte)
    ensures ParseInt(s) == None
  {
    if s[0] == '-' as byte || s[0] == '+' as byte {
      assert s[1..][i - 1] == s[i];
    }
  }

  /** The decimal digits of `n`, most significant first, with no leading zero. */
  function Digits(n: nat): (s: seq<byte>)
    ensures |s| > 0 && AllDigits(s)
    ensures DigitsValue(s) == n
    ensures s[0] != '-' as byte && s[0] != '+' as byte
  {
    if n < 10 then [(n + '0' as int) as byte]
    else
      var s := Digits(n / 10) + [(n % 10 + '0' as int) as byte];
      assert s[..|s| - 1] == Digits(n / 10);
      s
  }

  /** `n` written in base 10, as `strconv.FormatInt` writes it. */
  function Decimal(n: int): seq<byte>
  {
    if n < 0 then ['-' as byte] + Digits(-n) else Digits(n)
  }

  /** Parsing undoes formatting, for every 64-bit integer. */
  lemma ParseDecimal(n: int)
    requires MinInt64 <= n <= MaxInt64
    ensures ParseInt(Decimal(n)) == Some(n)
  {
    if n < 0 {
      assert Decimal(n)[1..] == Digits(-n);
    }
  }

  /**
   * The header's fields: `strings.SplitN(meta, " ", 3)` must give three, and
   * the second must parse as the length.
   */
  function ParseLength(meta: seq<byte>): (r: Result<int, ScpError>)
    ensures r.Failure? ==> r.error == BadMetadata || r.error == BadLength
    ensures r.Success? ==> MinInt64 <= r.value <= MaxInt64
  {
    var parts := SplitN(meta, Space, 3);
    if |parts| != 3 then Failure(BadMetadata)
    else match ParseInt(parts[1])
      case None => Failure(BadLength)
      case Some(flen) => Success(flen)
  }

  /**
   * A header is refused as bad metadata exactly when it holds fewer than two
   * spaces, that is when splitting it at every space gives fewer than three
   * fields; the path, after the second space, may hold spaces of its own.
   */
  lemma BadMetadataIff(meta: seq<byte>)
    ensures ParseLength(meta) == Failure(BadMetadata) <==> |Split(meta, Space)| < 3
  {
    SplitNSplit(meta, Space, 3);
  }

  /**
   * A header whose mode and second field hold no space: its length is what
   * `strconv.ParseInt` makes of the second field (a sign and leading zeros
   * included), and a second field it refuses is a bad length; the path may
   * hold anything.
   */
  lemma LengthField(mode: seq<byte>, field: seq<byte>, path: seq<byte>)
    requires Free(mode, Space) && Free(field, Space)
    ensures var r := ParseLength(mode + [Space] + field + [Space] + path);
      && (r == Failure(BadLength) <==> ParseInt(field).None?)
      && (ParseInt(field).Some? ==> r == Success(ParseInt(field).value))
  {
    var rest := field + [Space] + path;
    SplitNCons(field, Space, path, 2);
    assert mode + [Space] + field + [Space] + path == mode + [Space] + rest;
    SplitNCons(mode, Space, rest, 3);
  }

  /** `strconv.ParseInt` takes a plus sign and leading zeros: `+12` and `0012` are both 12, `-0` is 0. */
  lemma NonCanonicalLengths()
    ensures ParseInt([43, 49, 50]) == Some(12)
    ensures ParseInt([48, 48, 49, 50]) == Some(12)
    ensures ParseInt([45, 48]) == Some(0)
    ensures ParseInt([43]) == None && ParseInt([49, 32]) == None
  {
    var twelve: seq<byte> := [49, 50];
    assert twelve[..1] == [49];
    assert DigitsValue(twelve) == 12;
    var zeros: seq<byte> := [48, 48, 49, 50];
    var z1: seq<byte> := [48];
    var z2: seq<byte> := [48, 48];
    var z3: seq<byte> := [48, 48, 49];
    assert z1[..0] == [] && DigitsValue(z1) == 0;
    assert z2[..1] == z1 && DigitsValue(z2) == 0;
    assert z3[..2] == z2 && DigitsValue(z3) == 1;
    assert zeros[..3] == z3 && DigitsValue(zeros) == 12;
    var plus: seq<byte> := [43, 49, 50];
    assert plus[1..] == twelve;
    assert !IsDigit(32);
  }

  /** The header a source sends for a file: mode, length and path, separated by spaces. */
  function Header(mode: seq<byte>, n: int, path: seq<byte>): seq<byte>
  {
    mode + [Space] + Decimal(n) + [Space] + path
  }

  /** Every header built from a space-free mode, a 64-bit length and any path gives back its length. */
  lemma ParseHeader(mode: seq<byte>, n: int, path: seq<byte>)
    requires Free(mode, Space)
    requires MinInt64 <= n <= MaxInt64
    ensures ParseLength(Header(mode, n, path)) == Success(n)
  {
    var h := Header(mode, n, path);
    var d := Decimal(n);
    assert Free(d, Space) by {
      if n < 0 {
        assert forall i :: 1 <= i < |d| ==> d[i] == Digits(-n)[i - 1];
      }
    }
    SplitNCons(d, Space, path, 2);
    assert h == mode + [Space] + (d + [Space] + path);
    SplitNCons(mode, Space, d + [Space] + path, 3);
    ParseDecimal(n);
  }

  /** The header of the example in the source's comments, for a file `server.pem` of 1192 bytes. */
  const ExampleHeader: seq<byte> :=
    [67, 48, 54, 52, 52, 32, 49, 49, 57, 50, 32, 115, 101, 114, 118, 101, 114, 46, 112, 101, 109]

  /** `C0644 1192 server.pem` announces 1192 bytes. */
  lemma ExampleLength()
    ensures ParseLength(ExampleHeader) == Success(1192)
  {
    var mode: seq<byte> := [67, 48, 54, 52, 52];
    var path: seq<byte> := [115, 101, 114, 118, 101, 114, 46, 112, 101, 109];
    assert Digits(1) == [49];
    assert Digits(11) == [49, 49];
    assert Digits(119) == [49, 49, 57];
    assert Decimal(1192) == [49, 49, 57, 50];
    assert ExampleHeader == Header(mode, 1192, path);
    ParseHeader(mode, 1192, path);
  }

  /** The outcome of `getFile` and the stream it leaves. */
  datatype Transfer = Transfer(outcome: Outcome, wire: Wire<byte>)

  /**
   * `getFile` as a function of the stream. The results of the three
   * acknowledgement writes are ignored, as in the source.
   */
  function GetFileSpec(w: Wire<byte>): Transfer
  {
    var meta := ReadWire(WriteWire(w, Ack).after, MetaSize);
    match meta.result
    case Fail => Transfer(Failed(MetaRead), meta.after)
    case Data(header) => AfterParse(ParseLength(header), meta.after)
  }

  /** `getFile` once it has parsed the header: acknowledge a good one, read the file. */
  function AfterParse(parsed: Result<int, ScpError>, w: Wire<byte>): Transfer
  {
    match parsed
    case Failure(e) => Transfer(Failed(e), w)
    case Success(flen) =>
      var w' := WriteWire(w, Ack).after;
      if flen < 0 then Transfer(Panicked, w') else Payload(flen, w')
  }

  /** `getFile` once it has acknowledged a header announcing `flen` bytes: one read of `flen` bytes. */
  function Payload(flen: nat, w: Wire<byte>): Transfer
  {
    var payload := ReadWire(w, flen);
    match payload.result
    case Fail => Transfer(Failed(PayloadRead), payload.after)
    case Data(file) =>
      if |file| != flen then Transfer(Failed(IncompleteFile), payload.after)
      else Transfer(Got(file), WriteWire(payload.after, Ack).after)
  }

  /** `getFile`, on the stdin and stdout pipes of the `scp -f` session. */
  method GetFile(ch: Channel<byte>) returns (r: Outcome)
    modifies ch
    ensures Transfer(r, ch.State()) == GetFileSpec(old(ch.State()))
  {
    var _ := ch.Write(Ack);
    var meta := ch.Read(MetaSize);
    if meta.Fail? {
      return Failed(MetaRead);
    }
    var parsed := ParseLength(meta.bytes);
    if parsed.Failure? {
      return Failed(parsed.error);
    }
    var flen := parsed.value;
    var _ := ch.Write(Ack);
    if flen < 0 {
      return Panicked;
    }
    var file := ch.Read(flen);
    if file.Fail? {
      return Failed(PayloadRead);
    }
    if |file.bytes| != flen {
      return Failed(IncompleteFile);
    }
    var _ := ch.Write(Ack);
    return Got(file.bytes);
  }

  /** How many acknowledgements `getFile` has written by the time it ends with `outcome`. */
  function AcksWritten(outcome: Outcome): nat
  {
    match outcome
    case Got(_) => 3
    case Panicked => 2
    case Failed(e) => if e == PayloadRead || e == IncompleteFile then 2 else 1
  }

  /** `k` acknowledgements in a row. */
  function Acks(k: nat): seq<seq<byte>>
  {
    if k == 0 then [] else Acks(k - 1) + [Ack]
  }

  /**
   * `getFile` writes nothing but single zero bytes: one before the header, one
   * after a header it accepts, one after a complete file.
   */
  lemma AcksOnly(w: Wire<byte>)
    ensures var t := GetFileSpec(w);
      t.wire.sent == w.sent + Acks(AcksWritten(t.outcome))
  {
    var w1 := WriteWire(w, Ack).after;
    var meta := ReadWire(w1, MetaSize);
    assert Acks(1) == [Ack];
    assert meta.after.sent == w.sent + [Ack];
    if meta.result.Data? {
      var parsed := ParseLength(meta.result.bytes);
      var t := AfterParse(parsed, meta.after);
      assert GetFileSpec(w) == t;
      AfterParseAcks(parsed, meta.after);
      AcksPrepend(w.sent, meta.after.sent, t.wire.sent, AcksWritten(t.outcome) - 1);
    } else {
      assert GetFileSpec(w) == Transfer(Failed(MetaRead), meta.after);
    }
  }

  lemma AcksPrepend(before: seq<seq<byte>>, mid: seq<seq<byte>>, after: seq<seq<byte>>, k: nat)
    requires mid == before + [Ack] && after == mid + Acks(k)
    ensures after == before + Acks(k + 1)
  {
    AcksSplit(k);
    assert after == before + ([Ack] + Acks(k));
  }

  lemma AcksSplit(k: nat)
    ensures [Ack] + Acks(k) == Acks(k + 1)
  {
    if k > 0 {
      AcksSplit(k - 1);
    }
  }

  lemma AfterParseAcks(parsed: Result<int, ScpError>, w: Wire<byte>)
    requires parsed.Failure? ==> parsed.error == BadMetadata || parsed.error == BadLength
    ensures var t := AfterParse(parsed, w);
      && AcksWritten(t.outcome) >= 1
      && t.wire.sent == w.sent + Acks(AcksWritten(t.outcome) - 1)
  {
    assert Acks(1) == [Ack];
    if parsed.Success? && parsed.value >= 0 {
      var w' := WriteWire(w, Ack).after;
      var t := Payload(parsed.value, w');
      assert AfterParse(parsed, w) == t;
      assert Acks(2) == [Ack, Ack];
      assert w.sent + [Ack] + [Ack] == w.sent + [Ack, Ack];
      assert t.outcome.Got? ==> t.wire.sent == w.sent + [Ack] + [Ack];
      assert !t.outcome.Got? ==> t.wire.sent == w.sent + [Ack] && AcksWritten(t.outcome) == 2;
    }
  }

  /**
   * A file is only ever returned whole: its length is the one its header
   * announced, and it is the data the stream delivered after the header.
   */
  lemma GotAnnouncedLength(w: Wire<byte>)
    requires GetFileSpec(w).outcome.Got?
    ensures var meta := ReadWire(WriteWire(w, Ack).after, MetaSize);
      && meta.result.Data?
      && ParseLength(meta.result.bytes) == Success(|GetFileSpec(w).outcome.file|)
      && StreamData(meta.after.incoming)[..|GetFileSpec(w).outcome.file|] == GetFileSpec(w).outcome.file
  {
  }

  /** A read that returns fewer bytes than announced is an error, never a short file. */
  lemma ShortReadIncomplete(w: Wire<byte>, header: seq<byte>, flen: nat, chunk: seq<byte>, later: seq<ReadResult<byte>>)
    requires w.incoming == [Data(header), Data(chunk)] + later
    requires |header| <= MetaSize && ParseLength(header) == Success(flen)
    requires |chunk| < flen
    ensures GetFileSpec(w).outcome == Failed(IncompleteFile)
  {
    var rest := [Data(chunk)] + later;
    var meta := ReadWire(WriteWire(w, Ack).after, MetaSize);
    assert meta.result == Data(header) && meta.after.incoming == rest;
    ShortPayload(flen, WriteWire(meta.after, Ack).after, chunk, later);
  }

  lemma ShortPayload(flen: nat, w: Wire<byte>, chunk: seq<byte>, later: seq<ReadResult<byte>>)
    requires w.incoming == [Data(chunk)] + later && |chunk| < flen
    ensures Payload(flen, w) == Transfer(Failed(IncompleteFile), w.(incoming := later))
  {
    assert ReadWire(w, flen) == Received(Data(chunk), w.(incoming := later));
  }

  /** A header announcing a length that is not negative is acknowledged, and the payload is read next. */
  lemma HeaderAccepted(w: Wire<byte>, header: seq<byte>, flen: nat, rest: seq<ReadResult<byte>>)
    returns (w': Wire<byte>)
    requires w.incoming == [Data(header)] + rest
    requires |header| <= MetaSize && ParseLength(header) == Success(flen)
    ensures GetFileSpec(w) == Payload(flen, w') && w'.incoming == rest
    ensures w'.sent == w.sent + [Ack, Ack]
  {
    var meta := ReadWire(WriteWire(w, Ack).after, MetaSize);
    assert meta.result == Data(header) && meta.after.incoming == rest;
    w' := WriteWire(meta.after, Ack).after;
  }

  /** A header that does not parse stops the transfer before the second acknowledgement and any payload read. */
  lemma BadHeaderStops(w: Wire<byte>)
    requires var meta := ReadWire(WriteWire(w, Ack).after, MetaSize);
      meta.result.Data? && ParseLength(meta.result.bytes).Failure?
    ensures GetFileSpec(w).outcome.Failed?
    ensures GetFileSpec(w).wire == ReadWire(WriteWire(w, Ack).after, MetaSize).after
    ensures |GetFileSpec(w).wire.sent| == |w.sent| + 1
  {
  }

  /** A negative announced length makes the source panic once it has acknowledged the header. */
  lemma NegativeLengthPanics(w: Wire<byte>, mode: seq<byte>, n: int, path: seq<byte>, later: seq<ReadResult<byte>>)
    requires Free(mode, Space) && MinInt64 <= n < 0
    requires |Header(mode, n, path)| <= MetaSize
    requires w.incoming == [Data(Header(mode, n, path))] + later
    ensures GetFileSpec(w).outcome == Panicked
  {
    ParseHeader(mode, n, path);
  }

  /** A zero-length file is read without consuming anything and returned empty. */
  lemma EmptyFile(w: Wire<byte>, header: seq<byte>, later: seq<ReadResult<byte>>)
    requires w.incoming == [Data(header)] + later
    requires |header| <= MetaSize && ParseLength(header) == Success(0)
    ensures GetFileSpec(w).outcome == Got([])
    ensures GetFileSpec(w).wire.incoming == later
  {
  }
}
