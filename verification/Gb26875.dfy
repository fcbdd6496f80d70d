/** GB/T 26875.3-2011 frames: the codec of internal/parser/gb26875.go and the stream reader of
    cmd/gb26875-gateway/main.go. */
module Gb26875 {
  import opened Common

  const AT: byte := 0x40
  const HASH: byte := 0x23
  const CONTROL_LENGTH: nat := 25
  const MAX_DATA_LENGTH: nat := 512

  datatype Time = Time(year: nat, month: nat, day: nat, hour: nat, minute: nat, second: nat)

  datatype Message = Message(sequence: nat, source: seq<byte>, destination: seq<byte>, command: byte, data: seq<byte>)

  /** The Go types: a sixteen-bit sequence number and two six-byte addresses. */
  predicate Typed(m: Message) {
    m.sequence < 65536 && |m.source| == 6 && |m.destination| == 6
  }

  datatype Frame = Frame(message: Message, major: byte, minor: byte, time: Option<Time>)

  datatype Error = TooShort | BadStart | BadEnd | TooLong | LengthMismatch | ChecksumMismatch

  function Value(b: byte): (n: nat)
    ensures n < 256
  {
    b as nat
  }

  function Le16(lo: byte, hi: byte): nat {
    Value(hi) * 256 + Value(lo)
  }

  function PutLe16(n: nat): (s: seq<byte>)
    ensures |s| == 2
  {
    [LowByte(n), LowByte(n / 256)]
  }

  lemma Le16RoundTrip(n: nat)
    ensures Le16(PutLe16(n)[0], PutLe16(n)[1]) == n % 65536
  {
    ByteOfInt(n / 256 % 256);
    ByteOfInt(n % 256);
    Digits(n);
  }

  lemma Digits(n: nat)
    ensures n / 256 % 256 * 256 + n % 256 == n % 65536
  {
  }

  lemma SameValue(a: byte, b: byte)
    ensures Value(a) == Value(b) <==> a == b
  {
  }

  lemma Le16Injective(a: byte, b: byte, c: byte, d: byte)
    requires Le16(a, b) == Le16(c, d)
    ensures a == c && b == d
  {
    hide Value;
    SameValue(a, c);
    SameValue(b, d);
  }

  // ---------- time ----------

  function EncodeBcd(v: nat): byte {
    ((v / 10 % 16) as bv8 << 4) | ((v % 10) as bv8)
  }

  function DecodeBcd(b: byte): nat {
    if b >> 4 <= 9 && b & 0x0f <= 9 then (b >> 4) as nat * 10 + (b & 0x0f) as nat else b as nat
  }

  lemma Nibbles(hi: byte, lo: byte)
    requires hi <= 9 && lo <= 9
    ensures ((hi << 4) | lo) >> 4 == hi && ((hi << 4) | lo) & 0x0f == lo
  {
  }

  lemma BcdRoundTrip(v: nat)
    requires v < 100
    ensures DecodeBcd(EncodeBcd(v)) == v
  {
    Digit(v / 10);
    Digit(v % 10);
    assert v / 10 % 16 == v / 10;
    Nibbles((v / 10) as bv8, (v % 10) as bv8);
  }

  lemma Digit(n: nat)
    requires n < 10
    ensures (n as bv8) as nat == n && n as bv8 <= 9
  {
  }

  function EncodeTime(t: Time): (s: seq<byte>)
    ensures |s| == 6
  {
    [EncodeBcd(t.second), EncodeBcd(t.minute), EncodeBcd(t.hour), EncodeBcd(t.day), EncodeBcd(t.month),
     EncodeBcd(t.year % 100)]
  }

  predicate InRange(t: Time) {
    1 <= t.month <= 12 && 1 <= t.day <= 31 && t.hour <= 23 && t.minute <= 59 && t.second <= 59
  }

  /** The fields handed to `time.Date`, or nothing where the source returns zero. */
  function DecodeTime(s: seq<byte>): Option<Time>
    requires |s| == 6
  {
    var t := Time(2000 + DecodeBcd(s[5]), DecodeBcd(s[4]), DecodeBcd(s[3]),
                  DecodeBcd(s[2]), DecodeBcd(s[1]), DecodeBcd(s[0]));
    if InRange(t) then Some(t) else None
  }

  /** A time comes back with its century replaced by 2000. */
  lemma TimeRoundTrip(t: Time)
    requires InRange(t)
    ensures DecodeTime(EncodeTime(t)) == Some(t.(year := 2000 + t.year % 100))
    ensures DecodeTime(EncodeTime(t)) == Some(t) <==> 2000 <= t.year <= 2099
  {
    hide EncodeBcd, DecodeBcd;
    BcdRoundTrip(t.second);
    BcdRoundTrip(t.minute);
    BcdRoundTrip(t.hour);
    BcdRoundTrip(t.day);
    BcdRoundTrip(t.month);
    BcdRoundTrip(t.year % 100);
  }

  // ---------- frames ----------

  function Plus(a: byte, b: byte): byte {
    a + b
  }

  function Sum(s: seq<byte>): byte {
    if s == [] then 0 else Plus(Sum(s[..|s| - 1]), s[|s| - 1])
  }

  /** Everything the checksum covers. */
  function Body(m: Message, at: Time): seq<byte> {
    PutLe16(m.sequence) + [0x01, 0x03] + EncodeTime(at) + m.source + m.destination + PutLe16(|m.data|)
    + [m.command] + m.data
  }

  function FrameOf(m: Message, at: Time): seq<byte> {
    [AT, AT] + Body(m, at) + [Sum(Body(m, at))] + [HASH, HASH]
  }

  /** The frame is written into one array, field by field. */
  method BuildFrame(m: Message, at: Time) returns (frame: array<byte>)
    requires Typed(m)
    ensures fresh(frame) && frame[..] == FrameOf(m, at)
  {
    hide Sum, Body;
    var n := |m.data|;
    frame := new byte[2 + CONTROL_LENGTH + n + 1 + 2];
    WriteBody(frame, m, at);
    BodyFollowsMarker(m, at);
    assert frame[2..27 + n] == frame[..27 + n][2..];
    var sum := Checksum(frame[2..27 + n]);
    Copy(frame, 27 + n, [sum]);
    Copy(frame, 28 + n, [HASH, HASH]);
    assert frame[..] == frame[..30 + n];
  }

  method WriteBody(frame: array<byte>, m: Message, at: Time)
    requires Typed(m) && frame.Length == 30 + |m.data|
    modifies frame
    ensures frame[..27 + |m.data|] == [AT, AT] + Body(m, at)
  {
    hide PutLe16, EncodeTime, Body;
    Copy(frame, 0, [AT, AT]);
    Copy(frame, 2, PutLe16(m.sequence));
    Copy(frame, 4, [0x01, 0x03]);
    Copy(frame, 6, EncodeTime(at));
    Copy(frame, 12, m.source);
    Copy(frame, 18, m.destination);
    Copy(frame, 24, PutLe16(|m.data|));
    Copy(frame, 26, [m.command]);
    Copy(frame, 27, m.data);
    BodyFollowsMarker(m, at);
  }

  lemma BodyFollowsMarker(m: Message, at: Time)
    requires Typed(m)
    ensures |Body(m, at)| == CONTROL_LENGTH + |m.data|
    ensures
      [AT, AT] + Body(m, at) ==
      [AT, AT] + PutLe16(m.sequence) + [0x01, 0x03] + EncodeTime(at) + m.source + m.destination + PutLe16(|m.data|)
      + [m.command] + m.data
    ensures ([AT, AT] + Body(m, at))[2..] == Body(m, at)
  {
  }

  /** Go's `copy` into `a[offset:]`, here always just after the part written so far. */
  method Copy(a: array<byte>, offset: nat, s: seq<byte>)
    requires offset + |s| <= a.Length
    modifies a
    ensures a[..offset + |s|] == old(a[..offset]) + s
  {
    forall i | 0 <= i < |s| {
      a[offset + i] := s[i];
    }
  }

  method Checksum(s: seq<byte>) returns (sum: byte)
    ensures sum == Sum(s)
  {
    sum := 0;
    for i := 0 to |s|
      invariant sum == Sum(s[..i])
    {
      assert s[..i + 1][..i] == s[..i];
      sum := Plus(sum, s[i]);
    }
    assert s[..|s|] == s;
  }

  function Decoded(d: seq<byte>): Result<Frame, Error> {
    if |d| < 30 then Err(TooShort)
    else if d[0] != AT || d[1] != AT then Err(BadStart)
    else if d[|d| - 2] != HASH || d[|d| - 1] != HASH then Err(BadEnd)
    else
      var n := Le16(d[24], d[25]);
      if n > MAX_DATA_LENGTH then Err(TooLong)
      else if |d| != 30 + n then Err(LengthMismatch)
      else if d[27 + n] != Sum(d[2..27 + n]) then Err(ChecksumMismatch)
      else
        Ok(Frame(Message(Le16(d[2], d[3]), d[12..18], d[18..24], d[26], d[27..27 + n]), d[4], d[5], DecodeTime(d[6..12])))
  }

  method DecodeFrame(data: seq<byte>) returns (r: Result<Frame, Error>)
    ensures r == Decoded(data)
  {
    if |data| < 2 + CONTROL_LENGTH + 1 + 2 {
      return Err(TooShort);
    }
    if data[0] != AT || data[1] != AT {
      return Err(BadStart);
    }
    if data[|data| - 2] != HASH || data[|data| - 1] != HASH {
      return Err(BadEnd);
    }
    var dataLength := Le16(data[24], data[25]);
    if dataLength > MAX_DATA_LENGTH {
      return Err(TooLong);
    }
    if |data| != 2 + CONTROL_LENGTH + dataLength + 1 + 2 {
      return Err(LengthMismatch);
    }
    var sum := Checksum(data[2..27 + dataLength]);
    if data[27 + dataLength] != sum {
      return Err(ChecksumMismatch);
    }
    var message := Message(Le16(data[2], data[3]), data[12..18], data[18..24], data[26], data[27..27 + dataLength]);
    return Ok(Frame(message, data[4], data[5], DecodeTime(data[6..12])));
  }

  // ---------- round trip ----------

  /** Where the fields of a built frame are. */
  lemma Layout(m: Message, at: Time)
    requires Typed(m)
    ensures
      var d, n := FrameOf(m, at), |m.data|;
      && |d| == 30 + n && d[0] == AT && d[1] == AT && d[28 + n] == HASH && d[29 + n] == HASH
      && d[2..27 + n] == Body(m, at) && d[27 + n] == Sum(Body(m, at))
      && d[2..4] == PutLe16(m.sequence) && d[4] == 0x01 && d[5] == 0x03 && d[6..12] == EncodeTime(at)
      && d[12..18] == m.source && d[18..24] == m.destination && d[24..26] == PutLe16(n) && d[26] == m.command
      && d[27..27 + n] == m.data
  {
    hide PutLe16, EncodeTime, Sum;
    var d, n := FrameOf(m, at), |m.data|;
    BodyFollowsMarker(m, at);
    assert d[2..] == Body(m, at) + [Sum(Body(m, at))] + [HASH, HASH];
    assert d[2..27 + n] == Body(m, at);
    FieldsOfBody(m, at);
    assert forall i, j :: 0 <= i <= j <= 25 + n ==> d[2 + i..2 + j] == Body(m, at)[i..j];
    assert d[26] == d[26..27][0] && d[4] == d[4..5][0] && d[5] == d[5..6][0];
  }

  lemma FieldsOfBody(m: Message, at: Time)
    requires Typed(m)
    ensures
      var b, n := Body(m, at), |m.data|;
      && |b| == 25 + n
      && b[0..2] == PutLe16(m.sequence) && b[2..3] == [0x01] && b[3..4] == [0x03] && b[4..10] == EncodeTime(at)
      && b[10..16] == m.source && b[16..22] == m.destination && b[22..24] == PutLe16(n) && b[24..25] == [m.command]
      && b[25..25 + n] == m.data
  {
    hide PutLe16, EncodeTime;
  }

  /** Two decimal digits in a byte, the tens in the upper half. */
  predicate ShowsDigits(b: byte, v: nat) {
    Value(b) / 16 == v / 10 && Value(b) % 16 == v % 10
  }

  lemma Halves(hi: byte, lo: byte)
    requires hi <= 9 && lo <= 9
    ensures ((hi << 4) | lo) as nat == 16 * hi as nat + lo as nat
  {
  }

  lemma BcdShowsDigits(v: nat)
    requires v < 100
    ensures ShowsDigits(EncodeBcd(v), v)
  {
    Digit(v / 10);
    Digit(v % 10);
    assert v / 10 % 16 == v / 10;
    Halves((v / 10) as bv8, (v % 10) as bv8);
  }

  function Octets(s: seq<byte>): nat {
    if s == [] then 0 else Octets(s[..|s| - 1]) + Value(s[|s| - 1])
  }

  lemma UpByOne(a: byte)
    ensures Value(a + 1) == if a == 255 then 0 else Value(a) + 1
  {
  }

  lemma DownByOne(b: byte)
    ensures b != 0 ==> Value(b) == Value(b - 1) + 1
    ensures Value(0) == 0 && (Value(b) == 255 <==> b == 255)
  {
  }

  lemma PlusSteps(a: byte, b: byte)
    ensures Plus(a, b) == Plus(a, b - 1) + 1 && Plus(a, 0) == a
  {
  }

  lemma {:induction false} PlusWraps(a: byte, b: byte)
    ensures Value(Plus(a, b)) == (Value(a) + Value(b)) % 256
    decreases Value(b)
  {
    hide Value, Plus;
    DownByOne(b);
    PlusSteps(a, b);
    if b != 0 {
      PlusWraps(a, b - 1);
      UpByOne(Plus(a, b - 1));
      DownByOne(Plus(a, b - 1));
    }
  }

  lemma ModPlus(n: nat, v: nat)
    ensures (n % 256 + v) % 256 == (n + v) % 256
  {
  }

  lemma LastOctet(s: seq<byte>)
    requires s != []
    ensures Sum(s) == Plus(Sum(s[..|s| - 1]), s[|s| - 1]) && Octets(s) == Octets(s[..|s| - 1]) + Value(s[|s| - 1])
  {
  }

  lemma {:induction false} SumIsModular(s: seq<byte>)
    ensures Value(Sum(s)) == Octets(s) % 256
    decreases |s|
  {
    if s == [] {
      DownByOne(0);
    } else {
      hide *;
      LastOctet(s);
      SumIsModular(s[..|s| - 1]);
      PlusWraps(Sum(s[..|s| - 1]), s[|s| - 1]);
      ModPlus(Octets(s[..|s| - 1]), Value(s[|s| - 1]));
    }
  }

  lemma TimeShowsDigits(t: Time)
    requires InRange(t)
    ensures
      var s := EncodeTime(t);
      && ShowsDigits(s[0], t.second) && ShowsDigits(s[1], t.minute) && ShowsDigits(s[2], t.hour)
      && ShowsDigits(s[3], t.day) && ShowsDigits(s[4], t.month) && ShowsDigits(s[5], t.year % 100)
  {
    hide EncodeBcd, ShowsDigits;
    BcdShowsDigits(t.second);
    BcdShowsDigits(t.minute);
    BcdShowsDigits(t.hour);
    BcdShowsDigits(t.day);
    BcdShowsDigits(t.month);
    BcdShowsDigits(t.year % 100);
  }

  /** A built frame as the standard lays it out: numbers with their low byte first, the time in decimal digits from the
      seconds up, and behind the data the sum of all bytes after the marker, modulo 256. */
  lemma WireFormat(m: Message, at: Time)
    requires Typed(m) && InRange(at) && |m.data| < 65536
    ensures
      var d, n := FrameOf(m, at), |m.data|;
      && |d| == 30 + n && d[0] == 0x40 && d[1] == 0x40 && d[28 + n] == 0x23 && d[29 + n] == 0x23
      && Value(d[2]) + 256 * Value(d[3]) == m.sequence && d[4] == 1 && d[5] == 3
      && ShowsDigits(d[6], at.second) && ShowsDigits(d[7], at.minute) && ShowsDigits(d[8], at.hour)
      && ShowsDigits(d[9], at.day) && ShowsDigits(d[10], at.month) && ShowsDigits(d[11], at.year % 100)
      && d[12..18] == m.source && d[18..24] == m.destination
      && Value(d[24]) + 256 * Value(d[25]) == n && d[26] == m.command && d[27..27 + n] == m.data
      && Value(d[27 + n]) == Octets(d[2..27 + n]) % 256
  {
    hide FrameOf, PutLe16, EncodeTime, Sum, Body, Octets, ShowsDigits, Value;
    var d, n := FrameOf(m, at), |m.data|;
    Layout(m, at);
    LowByteFirst(d, 2, m.sequence);
    LowByteFirst(d, 24, n);
    SumIsModular(Body(m, at));
    TimeShowsDigits(at);
    SixBytes(d, EncodeTime(at));
  }

  lemma LowByteFirst(d: seq<byte>, i: nat, n: nat)
    requires i + 2 <= |d| && d[i..i + 2] == PutLe16(n) && n < 65536
    ensures Value(d[i]) + 256 * Value(d[i + 1]) == n
  {
    hide PutLe16, Value;
    Le16RoundTrip(n);
    assert d[i] == d[i..i + 2][0] && d[i + 1] == d[i..i + 2][1];
  }

  lemma SixBytes(d: seq<byte>, s: seq<byte>)
    requires |s| == 6 && |d| >= 12 && d[6..12] == s
    ensures d[6] == s[0] && d[7] == s[1] && d[8] == s[2] && d[9] == s[3] && d[10] == s[4] && d[11] == s[5]
  {
    assert forall i :: 0 <= i < 6 ==> d[6 + i] == d[6..12][i];
  }

  /** Decoding a built frame succeeds if and only if the application data fits, and then returns what went in; the time
      comes back within its century. */
  lemma DecodesWhatWasBuilt(m: Message, at: Time)
    requires Typed(m) && InRange(at)
    ensures Decoded(FrameOf(m, at)).Ok? <==> |m.data| <= MAX_DATA_LENGTH
    ensures
      |m.data| <= MAX_DATA_LENGTH ==>
      Decoded(FrameOf(m, at)) == Ok(Frame(m, 0x01, 0x03, Some(at.(year := 2000 + at.year % 100))))
  {
    hide FrameOf, PutLe16, Le16, EncodeTime, DecodeTime, Sum, Body;
    var d, n := FrameOf(m, at), |m.data|;
    Layout(m, at);
    Le16RoundTrip(m.sequence);
    Le16RoundTrip(n);
    TimeRoundTrip(at);
    assert d[2] == d[2..4][0] && d[3] == d[2..4][1] && d[24] == d[24..26][0] && d[25] == d[24..26][1];
  }

  // ---------- error detection ----------

  /** A sum in which `was` has been replaced by `b`. */
  function Adjusted(sum: byte, was: byte, b: byte): byte {
    sum - was + b
  }

  lemma AdjustedFacts(x: byte, was: byte, b: byte, last: byte)
    ensures Plus(Adjusted(x, was, b), last) == Adjusted(Plus(x, last), was, b)
    ensures Plus(x, b) == Adjusted(Plus(x, was), was, b)
    ensures Adjusted(x, was, b) == x ==> was == b
    ensures Adjusted(Adjusted(x, was, b), b, was) == x
  {
  }

  lemma SumStep(s: seq<byte>, n: nat, last: byte)
    requires |s| == n + 1 && s[n] == last
    ensures Sum(s) == Plus(Sum(s[..n]), last)
  {
  }

  lemma UpdatedPrefix(s: seq<byte>, i: nat, b: byte)
    requires i < |s|
    ensures s[i := b][..|s| - 1] == if i == |s| - 1 then s[..|s| - 1] else s[..|s| - 1][i := b]
  {
  }

  lemma {:induction false} SumUpdate(s: seq<byte>, i: nat, b: byte)
    requires i < |s|
    ensures Sum(s[i := b]) == Adjusted(Sum(s), s[i], b)
    decreases |s|
  {
    hide Sum, Plus, Adjusted;
    var n := |s| - 1;
    SumStep(s, n, s[n]);
    UpdatedPrefix(s, i, b);
    AdjustedFacts(Sum(s[..n]), s[i], b, s[n]);
    if i == n {
      SumStep(s[i := b], n, b);
    } else {
      SumStep(s[i := b], n, s[n]);
      SumUpdate(s[..n], i, b);
    }
  }

  /** Any one byte replaced by another makes a valid frame invalid. */
  lemma OneByteIsDetected(d: seq<byte>, i: nat, b: byte)
    requires Decoded(d).Ok? && i < |d| && b != d[i]
    ensures Decoded(d[i := b]).Err?
  {
    hide Sum, DecodeTime, Le16, Adjusted;
    var e, n := d[i := b], |d| - 30;
    if 24 <= i < 26 {
      if Le16(e[24], e[25]) == n {
        Le16Injective(e[24], e[25], d[24], d[25]);
        assert false;
      }
    } else if 2 <= i < 27 + n {
      assert e[2..27 + n] == d[2..27 + n][i - 2 := b];
      SumUpdate(d[2..27 + n], i - 2, b);
      AdjustedFacts(Sum(d[2..27 + n]), d[i], b, 0);
      assert e[27 + n] == d[27 + n];
    } else if i == 27 + n {
      assert e[2..27 + n] == d[2..27 + n];
    }
  }

  /** Two bytes exchanged are not detected, wherever they are under the checksum outside the length field. */
  lemma ExchangeIsNotDetected(d: seq<byte>, i: nat, j: nat)
    requires Decoded(d).Ok? && 2 <= i < j < |d| - 3 && i != 24 && i != 25 && j != 24 && j != 25
    ensures Decoded(d[i := d[j]][j := d[i]]).Ok?
  {
    hide Sum, DecodeTime, Le16;
    var e, n := d[i := d[j]][j := d[i]], |d| - 30;
    assert e[2..27 + n] == d[2..27 + n][i - 2 := d[j]][j - 2 := d[i]];
    ExchangeKeepsSum(d[2..27 + n], i - 2, j - 2);
    assert e[24] == d[24] && e[25] == d[25];
  }

  lemma ExchangeKeepsSum(s: seq<byte>, i: nat, j: nat)
    requires i < j < |s|
    ensures Sum(s[i := s[j]][j := s[i]]) == Sum(s)
  {
    hide Sum, Adjusted;
    var a, b := s[i], s[j];
    SumUpdate(s, i, b);
    SumUpdate(s[i := b], j, a);
    AdjustedFacts(Sum(s), a, b, 0);
  }

  // ---------- the stream reader ----------

  /** What is left of a stream after the next start marker; a lone '@' takes the byte after it along. */
  function AfterMarker(s: seq<byte>): Option<seq<byte>> {
    if s == [] then None
    else if s[0] != AT then AfterMarker(s[1..])
    else if |s| == 1 then None
    else if s[1] != AT then AfterMarker(s[2..])
    else Some(s[2..])
  }

  datatype ReadError = EndOfStream | LengthExceeds512

  /** One frame from the stream, and what is left of it. */
  function Read(s: seq<byte>): (Result<seq<byte>, ReadError>, seq<byte>) {
    match AfterMarker(s)
    case None => (Err(EndOfStream), [])
    case Some(t) =>
      if |t| < 25 then (Err(EndOfStream), [])
      else
        var n := Le16(t[22], t[23]);
        if n > MAX_DATA_LENGTH then (Err(LengthExceeds512), t[25..])
        else if |t| < 28 + n then (Err(EndOfStream), [])
        else (Ok([AT, AT] + t[..28 + n]), t[28 + n..])
  }

  /** The buffered reader; `io.ReadFull` uses up a stream that ends too early. */
  class Reader {
    var rest: seq<byte>

    constructor (stream: seq<byte>)
      ensures rest == stream
    {
      rest := stream;
    }

    method ReadByte() returns (b: Option<byte>)
      modifies this
      ensures old(rest) == [] ==> b == None && rest == []
      ensures old(rest) != [] ==> b == Some(old(rest)[0]) && rest == old(rest)[1..]
    {
      if rest == [] {
        return None;
      }
      b := Some(rest[0]);
      rest := rest[1..];
    }

    method ReadFull(n: nat) returns (s: Option<seq<byte>>)
      modifies this
      ensures |old(rest)| < n ==> s == None && rest == []
      ensures |old(rest)| >= n ==> s == Some(old(rest)[..n]) && rest == old(rest)[n..]
    {
      if |rest| < n {
        rest := [];
        return None;
      }
      s := Some(rest[..n]);
      rest := rest[n..];
    }

    /** The first loop of `readFrame`: up to and including the next two '@'s. */
    method SkipToMarker() returns (found: bool)
      modifies this
      ensures found <==> AfterMarker(old(rest)).Some?
      ensures rest == if found then AfterMarker(old(rest)).value else []
    {
      while true
        invariant AfterMarker(rest) == AfterMarker(old(rest))
        decreases |rest|
      {
        var first := ReadByte();
        if first == None {
          return false;
        }
        if first.value != AT {
          continue;
        }
        var second := ReadByte();
        if second == None {
          return false;
        }
        if second.value != AT {
          continue;
        }
        return true;
      }
    }

    method ReadFrame() returns (r: Result<seq<byte>, ReadError>)
      modifies this
      ensures (r, rest) == Read(old(rest))
    {
      hide AfterMarker, Le16;
      var found := SkipToMarker();
      if !found {
        return Err(EndOfStream);
      }
      ghost var t := rest;
      var header := ReadFull(25);
      if header == None {
        return Err(EndOfStream);
      }
      var applicationLength := Le16(header.value[22], header.value[23]);
      if applicationLength > 512 {
        return Err(LengthExceeds512);
      }
      var tail := ReadFull(applicationLength + 3);
      if tail == None {
        return Err(EndOfStream);
      }
      assert header.value + tail.value == t[..28 + applicationLength];
      assert rest == t[28 + applicationLength..];
      return Ok([AT, AT] + (header.value + tail.value));
    }
  }

  /** The bytes of one frame as the reader sees them: marker, header, and as much as the header says. */
  predicate Framed(f: seq<byte>) {
    && |f| >= 30 && f[0] == AT && f[1] == AT && Le16(f[24], f[25]) <= MAX_DATA_LENGTH
    && |f| == 30 + Le16(f[24], f[25])
  }

  lemma ReadsFrame(f: seq<byte>, rest: seq<byte>)
    requires Framed(f)
    ensures AfterMarker(f + rest) == Some(f[2..] + rest)
    ensures Read(f + rest) == (Ok(f), rest)
  {
    var s := f + rest;
    assert s[2..] == f[2..] + rest;
    var t := s[2..];
    var n := |f| - 30;
    assert t[22] == f[24] && t[23] == f[25];
    assert [AT, AT] + t[..28 + n] == f && t[28 + n..] == rest;
  }

  /** The bytes that the search for a marker skips completely. */
  predicate Clean(g: seq<byte>) {
    g == [] || (if g[0] != AT then Clean(g[1..]) else |g| > 1 && g[1] != AT && Clean(g[2..]))
  }

  lemma {:induction false} CleanIsSkipped(g: seq<byte>, s: seq<byte>)
    requires Clean(g)
    ensures AfterMarker(g + s) == AfterMarker(s)
    decreases |g|
  {
    if g == [] {
      assert g + s == s;
    } else if g[0] != AT {
      assert (g + s)[1..] == g[1..] + s;
      CleanIsSkipped(g[1..], s);
    } else {
      assert (g + s)[2..] == g[2..] + s;
      CleanIsSkipped(g[2..], s);
    }
  }

  lemma {:induction false} UncleanIsMistaken(g: seq<byte>, s: seq<byte>)
    requires !Clean(g) && s != [] && s[0] == AT
    ensures AfterMarker(g + s).Some? && |AfterMarker(g + s).value| >= |s| - 1
    decreases |g|
  {
    if g[0] != AT {
      assert (g + s)[1..] == g[1..] + s;
      UncleanIsMistaken(g[1..], s);
    } else if |g| > 1 && g[1] != AT {
      assert (g + s)[2..] == g[2..] + s;
      UncleanIsMistaken(g[2..], s);
    }
  }

  /** After garbage the reader finds a frame and leaves what follows it, if and only if the garbage is clean: its '@'s
      each stand before another byte of it that is none. */
  lemma ResyncsExactlyWhenClean(g: seq<byte>, f: seq<byte>, rest: seq<byte>)
    requires Framed(f)
    ensures Read(g + f + rest) == (Ok(f), rest) <==> Clean(g)
  {
    var s := f + rest;
    assert g + f + rest == g + s;
    if Clean(g) {
      CleanIsSkipped(g, s);
      ReadsFrame(f, rest);
      SameMarkerSameRead(g + s, s);
    } else {
      UncleanIsMistaken(g, s);
      if Read(g + s).0.Ok? {
        ReadLeavesRest(g + s);
      }
    }
  }

  lemma SameMarkerSameRead(a: seq<byte>, b: seq<byte>)
    requires AfterMarker(a) == AfterMarker(b)
    ensures Read(a) == Read(b)
  {
  }

  lemma ReadLeavesRest(s: seq<byte>)
    requires AfterMarker(s).Some? && Read(s).0.Ok?
    ensures |Read(s).1| == |AfterMarker(s).value| + 2 - |Read(s).0.value|
  {
  }

  // ---------- streams of frames ----------

  /** The next `n` frames read. */
  function ReadMany(s: seq<byte>, n: nat): (Result<seq<seq<byte>>, ReadError>, seq<byte>)
    decreases n
  {
    if n == 0 then (Ok([]), s)
    else
      var (r, t) := Read(s);
      if r.Err? then (Err(r.error), t)
      else
        var (q, u) := ReadMany(t, n - 1);
        (if q.Err? then q else Ok([r.value] + q.value), u)
  }

  /** A concatenation of frames is read back frame by frame, whatever bytes the frames hold. */
  lemma {:induction false} ConcatenationIsReadBack(frames: seq<seq<byte>>, rest: seq<byte>)
    requires forall i :: 0 <= i < |frames| ==> Framed(frames[i])
    ensures ReadMany(Joined(frames) + rest, |frames|) == (Ok(frames), rest)
  {
    hide Read, Framed;
    if frames == [] {
      assert Joined(frames) + rest == rest;
    } else {
      assert Joined(frames) + rest == frames[0] + (Joined(frames[1..]) + rest);
      ReadsFrame(frames[0], Joined(frames[1..]) + rest);
      ConcatenationIsReadBack(frames[1..], rest);
      assert frames == [frames[0]] + frames[1..];
    }
  }

  /** Messages sent over a stream arrive: the reader finds each frame, and each decodes to its message. */
  lemma StreamRoundTrip(messages: seq<Message>, at: Time, rest: seq<byte>)
    requires InRange(at) && forall i :: 0 <= i < |messages| ==> Typed(messages[i]) && |messages[i].data| <= MAX_DATA_LENGTH
    ensures
      var frames := seq(|messages|, i requires 0 <= i < |messages| => FrameOf(messages[i], at));
      && ReadMany(Joined(frames) + rest, |messages|) == (Ok(frames), rest)
      && forall i :: 0 <= i < |messages| ==> Decoded(frames[i]).Ok? && Decoded(frames[i]).value.message == messages[i]
  {
    hide FrameOf, Decoded;
    var frames := seq(|messages|, i requires 0 <= i < |messages| => FrameOf(messages[i], at));
    forall i | 0 <= i < |messages|
      ensures Framed(frames[i]) && Decoded(frames[i]).Ok? && Decoded(frames[i]).value.message == messages[i]
    {
      BuiltIsFramed(messages[i], at);
      DecodesWhatWasBuilt(messages[i], at);
    }
    ConcatenationIsReadBack(frames, rest);
  }

  lemma BuiltIsFramed(m: Message, at: Time)
    requires Typed(m) && |m.data| <= MAX_DATA_LENGTH
    ensures Framed(FrameOf(m, at))
  {
    hide FrameOf, PutLe16, Le16, EncodeTime, Sum, Body;
    Layout(m, at);
    Le16RoundTrip(|m.data|);
    var d := FrameOf(m, at);
    assert d[24] == d[24..26][0] && d[25] == d[24..26][1];
  }
}
